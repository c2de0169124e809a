/**
 The two one-time structural rewrites of the link tree.

 `convert_to_revolute` splits every link with two joints into two links with
 one joint each; `convert_to_zero_mean` re-centres the first joint range of
 every jointed link on zero and folds the removed mean into the link's fixed
 offset. The source mutates the tree in place; here each rewrite is a
 function from the old subtree to the new one.
 */
module Rewrites {
  import opened Algebra
  import opened Denavit
  import opened Links
  import opened Kinematics
  import opened Results

  // ---------------------------------------------------------------------------
  // Splitting two-joint links (`Link.convert_to_revolute`)

  /** Every link of the subtree with more than one joint still has its mesh. */
  predicate SplitsHaveMesh(l: Link)
    decreases l
  {
    && (|l.joints| > 1 ==> l.mesh.Some?)
    && forall i | 0 <= i < |l.children| :: SplitsHaveMesh(l.children[i])
  }

  /** Every link of the subtree has at most `n` joints. */
  predicate AtMostJoints(l: Link, n: nat)
    decreases l
  {
    && |l.joints| <= n
    && forall i | 0 <= i < |l.children| :: AtMostJoints(l.children[i], n)
  }

  /** The number of links of the subtree with more than one joint. */
  function SplitCount(l: Link): nat
    decreases l
  {
    (if |l.joints| > 1 then 1 else 0) + SplitCountAll(l.children)
  }

  function SplitCountAll(cs: seq<Link>): nat
    decreases cs
  {
    if cs == [] then 0 else SplitCount(cs[0]) + SplitCountAll(cs[1..])
  }

  /** `convert_to_revolute`. A link with more than one joint keeps its first
      joint, its offset and its end effectors, loses its mesh, and gets a
      single new child: a link built from its mesh with the identity offset
      and the second joint, which takes over the original children. Joints
      after the second are dropped. The new link is created without external
      contacts, so its end effectors are the mesh vertices. */
  function ConvertToRevolute(l: Link): (r: Link)
    requires SplitsHaveMesh(l)
    ensures AtMostJoints(r, 1)
    ensures |Flatten(r)| == |Flatten(l)| + SplitCount(l)
    ensures AtMostJoints(l, 2) ==> JointsOf(r) == JointsOf(l)
    decreases l
  {
    var cs := ConvertAll(l.children);
    if |l.joints| > 1 then
      var middle := NewLink(l.mesh.value, Identity4(), [l.joints[1]], false, cs);
      assert Flatten(middle) == [middle] + FlattenAll(cs);
      assert FlattenAll([middle]) == Flatten(middle);
      assert JointsOfAll([middle]) == JointsOf(middle);
      assert AtMostJoints(l, 2) ==> l.joints == [l.joints[0]] + [l.joints[1]];
      l.(mesh := None, joints := [l.joints[0]], children := [middle])
    else
      l.(children := cs)
  }

  /** What splitting does to one link. A split link loses its mesh but keeps
      its offset, cached rows, first joint and end effectors; its one new
      child carries the mesh, the identity offset, the second joint, the
      mesh vertices as end effectors (created without contacts), and the
      converted original children. Any other link keeps everything but its
      children, which are converted. */
  lemma ConvertedLinkShape(l: Link)
    requires SplitsHaveMesh(l)
    ensures var r := ConvertToRevolute(l);
            |l.joints| > 1 ==>
              && r == l.(mesh := None, joints := [l.joints[0]], children := r.children)
              && |r.children| == 1
              && r.children[0].mesh == l.mesh
              && r.children[0].effectors == l.mesh.value.vertices
              && r.children[0].offset == Identity4()
              && r.children[0].offsetTop == TopRows(Identity4())
              && r.children[0].joints == [l.joints[1]]
              && r.children[0].children == ConvertAll(l.children)
    ensures |l.joints| <= 1 ==> ConvertToRevolute(l) == l.(children := ConvertAll(l.children))
  {
  }

  /** Splitting repeats a link's points: a two-joint link created without
      contacts, with the one-vertex mesh `[p]`, has the points `[p]` before
      the split and `[p, p]` after it, once in the first half's frame and once
      in the inserted link's. */
  lemma SplitDuplicatesVertices(p: Vec3, j0: Joint, j1: Joint)
    ensures var l := NewLink(Mesh([p], true), Identity4(), [j0, j1], false, []);
            && AllEffectors(l) == [p]
            && AllEffectors(ConvertToRevolute(l)) == [p, p]
  {
    var l := NewLink(Mesh([p], true), Identity4(), [j0, j1], false, []);
    ConvertedLinkShape(l);
    var r := ConvertToRevolute(l);
    assert ConvertAll([]) == [];
    assert AllEffectorsOf(r.children[0].children) == [];
    assert AllEffectorsOf(r.children) == AllEffectors(r.children[0]) + AllEffectorsOf(r.children[1..]);
  }

  function ConvertAll(cs: seq<Link>): (rs: seq<Link>)
    requires forall i | 0 <= i < |cs| :: SplitsHaveMesh(cs[i])
    ensures |rs| == |cs|
    ensures forall i | 0 <= i < |rs| :: AtMostJoints(rs[i], 1)
    ensures |FlattenAll(rs)| == |FlattenAll(cs)| + SplitCountAll(cs)
    ensures (forall i | 0 <= i < |cs| :: AtMostJoints(cs[i], 2)) ==> JointsOfAll(rs) == JointsOfAll(cs)
    decreases cs
  {
    if cs == [] then []
    else
      var rs := [ConvertToRevolute(cs[0])] + ConvertAll(cs[1..]);
      assert rs[1..] == ConvertAll(cs[1..]);
      rs
  }

  /** On a tree that is already split the rewrite changes nothing, so applying
      it twice is the same as applying it once. */
  lemma {:induction false} ConvertIsIdentityWhenSplit(l: Link)
    requires AtMostJoints(l, 1)
    ensures SplitsHaveMesh(l) && ConvertToRevolute(l) == l
    decreases l
  {
    ConvertAllIsIdentityWhenSplit(l.children);
  }

  lemma {:induction false} ConvertAllIsIdentityWhenSplit(cs: seq<Link>)
    requires forall i | 0 <= i < |cs| :: AtMostJoints(cs[i], 1)
    ensures forall i | 0 <= i < |cs| :: SplitsHaveMesh(cs[i])
    ensures ConvertAll(cs) == cs
    decreases cs
  {
    if cs != [] {
      ConvertIsIdentityWhenSplit(cs[0]);
      ConvertAllIsIdentityWhenSplit(cs[1..]);
      assert cs == [cs[0]] + cs[1..];
    }
  }

  lemma ConvertTwiceIsConvertOnce(l: Link)
    requires SplitsHaveMesh(l)
    ensures SplitsHaveMesh(ConvertToRevolute(l))
    ensures ConvertToRevolute(ConvertToRevolute(l)) == ConvertToRevolute(l)
  {
    ConvertIsIdentityWhenSplit(ConvertToRevolute(l));
  }

  /** The largest joint id depends only on the pre-order joint records. */
  lemma MaxDofIdOfSameJoints(a: Link, b: Link)
    requires JointsOf(a) == JointsOf(b)
    ensures MaxDofId(a) == MaxDofId(b)
  {
  }

  /** On a tree of links with at most two joints, splitting keeps the degree
      of freedom count and the joint bounds. */
  lemma ConvertKeepsDofsAndBounds(l: Link, b: Bounds)
    requires SplitsHaveMesh(l) && AtMostJoints(l, 2)
    requires |b.lb| == |b.ub| && IdsBelow(JointsOf(l), |b.lb|)
    ensures MaxDofId(ConvertToRevolute(l)) == MaxDofId(l)
    ensures LbUb(ConvertToRevolute(l), b) == LbUb(l, b)
  {
    MaxDofIdOfSameJoints(ConvertToRevolute(l), l);
  }

  /** The converted frames, read back on the original tree: the first half of
      a split link is skipped and the inserted link's transform stands for the
      original link. */
  predicate SplitShaped(l: Link, f: Frames)
    decreases l
  {
    if |l.joints| > 1 then
      && |f.children| == 1
      && |f.children[0].children| == |l.children|
      && forall i | 0 <= i < |l.children| :: SplitShaped(l.children[i], f.children[0].children[i])
    else
      && |f.children| == |l.children|
      && forall i | 0 <= i < |l.children| :: SplitShaped(l.children[i], f.children[i])
  }

  function Collapse(l: Link, f: Frames): (g: Frames)
    requires SplitShaped(l, f)
    decreases l
  {
    var inner := if |l.joints| > 1 then f.children[0] else f;
    Frames(inner.transform,
           seq(|l.children|, i requires 0 <= i < |l.children| => Collapse(l.children[i], inner.children[i])))
  }

  lemma {:induction false} ConvertAllAt(cs: seq<Link>, i: nat)
    requires forall k | 0 <= k < |cs| :: SplitsHaveMesh(cs[k])
    requires i < |cs|
    ensures ConvertAll(cs)[i] == ConvertToRevolute(cs[i])
    decreases i
  {
    if i > 0 {
      ConvertAllAt(cs[1..], i - 1);
    }
  }

  /** The frames the converted link itself produces: for a split link, the
      inserted child carries the original link's full transform; otherwise the
      link keeps it. Either way the converted children are posed against it. */
  lemma ConvertedLinkFrame(e: Elementary, l: Link, parent: Mat4, root: Mat4, dofs: seq<real>)
    requires SplitsHaveMesh(l) && AtMostJoints(l, 2)
    requires DofsCover(JointsOf(l), dofs)
    ensures var f := Pose(e, ConvertToRevolute(l), parent, root, dofs);
            var t := LocalFrame(e, l, parent, root, dofs);
            var cs := ConvertAll(l.children);
            && (|l.joints| > 1 ==>
                  |f.children| == 1 && f.children[0].transform == t
                  && f.children[0].children == PoseAll(e, cs, t, root, dofs))
            && (|l.joints| <= 1 ==> f.transform == t && f.children == PoseAll(e, cs, t, root, dofs))
  {
    var r := ConvertToRevolute(l);
    var t := LocalFrame(e, l, parent, root, dofs);
    var cs := ConvertAll(l.children);
    if |l.joints| > 1 {
      var j0, j1 := l.joints[0], l.joints[1];
      var middle := NewLink(l.mesh.value, Identity4(), [j1], false, cs);
      assert r == l.(mesh := None, joints := [j0], children := [middle]);
      var f1 := LocalFrame(e, r, parent, root, dofs);
      assert f1 == Chain(e, Mul4(parent, l.offset), [j0], dofs);
      assert [j0][1..] == [] && [j1][1..] == [];
      assert |l.joints| <= 2;
      assert l.joints == [j0, j1] && l.joints[1..] == [j1];
      var m := Mul4(parent, l.offset);
      assert DofsCover([j0], dofs) && DofsCover([j1], dofs);
      assert Chain(e, m, [j0], dofs) == Chain(e, Mul4(m, JointTransform(e, j0, dofs)), [j0][1..], dofs);
      assert f1 == Mul4(m, JointTransform(e, j0, dofs));
      assert t == Chain(e, m, l.joints, dofs);
      assert Chain(e, m, l.joints, dofs) == Chain(e, f1, l.joints[1..], dofs);
      assert t == Chain(e, f1, [j1], dofs);
      MulIdentityRight(f1);
      assert LocalFrame(e, middle, f1, root, dofs) == t;
      var f := Pose(e, r, parent, root, dofs);
      assert f.children == PoseAll(e, [middle], f1, root, dofs);
      assert f.children[0] == Pose(e, middle, f1, root, dofs);
    }
  }

  /** The first half of a split link sits at `parent · offset · DH_1`: its
      own frame is the original chain stopped after the first joint. */
  lemma FirstHalfFrame(e: Elementary, l: Link, parent: Mat4, root: Mat4, dofs: seq<real>)
    requires SplitsHaveMesh(l) && AtMostJoints(l, 2) && |l.joints| > 1
    requires DofsCover(JointsOf(l), dofs)
    ensures Pose(e, ConvertToRevolute(l), parent, root, dofs).transform
            == Mul4(Mul4(parent, l.offset), JointTransform(e, l.joints[0], dofs))
  {
    var j0 := l.joints[0];
    ConvertedLinkShape(l);
    var r := ConvertToRevolute(l);
    assert r.joints == [j0] && [j0][1..] == [];
    assert LocalFrame(e, r, parent, root, dofs) == Chain(e, Mul4(parent, l.offset), [j0], dofs);
  }

  /** Splitting keeps every original link's world transform: read back on
      the original tree, the converted tree's frames are exactly the original
      frames. */
  lemma {:induction false} ConvertKeepsFrames(e: Elementary, l: Link, parent: Mat4, root: Mat4, dofs: seq<real>)
    requires SplitsHaveMesh(l) && AtMostJoints(l, 2)
    requires DofsCover(JointsOf(l), dofs)
    ensures SplitShaped(l, Pose(e, ConvertToRevolute(l), parent, root, dofs))
    ensures Collapse(l, Pose(e, ConvertToRevolute(l), parent, root, dofs)) == Pose(e, l, parent, root, dofs)
    decreases l
  {
    var f := Pose(e, ConvertToRevolute(l), parent, root, dofs);
    var t := LocalFrame(e, l, parent, root, dofs);
    var cs := ConvertAll(l.children);
    assert |l.joints| > 1 ==> |f.children| == 1 by {
      ConvertedLinkFrame(e, l, parent, root, dofs);
    }
    var inner := if |l.joints| > 1 then f.children[0] else f;
    assert inner.transform == t && inner.children == PoseAll(e, cs, t, root, dofs) by {
      ConvertedLinkFrame(e, l, parent, root, dofs);
    }
    var orig := PoseAll(e, l.children, t, root, dofs);
    ConvertKeepsFramesAll(e, l.children, t, root, dofs);
    assert SplitShaped(l, f);
    assert Collapse(l, f).children == orig;
  }

  lemma {:induction false} ConvertKeepsFramesAll(e: Elementary, cs: seq<Link>, parent: Mat4, root: Mat4, dofs: seq<real>)
    requires forall k | 0 <= k < |cs| :: SplitsHaveMesh(cs[k]) && AtMostJoints(cs[k], 2)
    requires DofsCover(JointsOfAll(cs), dofs)
    ensures DofsCover(JointsOfAll(ConvertAll(cs)), dofs)
    ensures var fs := PoseAll(e, ConvertAll(cs), parent, root, dofs);
            var gs := PoseAll(e, cs, parent, root, dofs);
            forall i | 0 <= i < |cs| :: SplitShaped(cs[i], fs[i]) && Collapse(cs[i], fs[i]) == gs[i]
    decreases cs
  {
    var rs := ConvertAll(cs);
    var fs := PoseAll(e, rs, parent, root, dofs);
    var gs := PoseAll(e, cs, parent, root, dofs);
    forall i | 0 <= i < |cs|
      ensures SplitShaped(cs[i], fs[i]) && Collapse(cs[i], fs[i]) == gs[i]
    {
      ConvertAllAt(cs, i);
      PoseAllAt(e, rs, parent, root, dofs, i);
      PoseAllAt(e, cs, parent, root, dofs, i);
      ConvertKeepsFrames(e, cs[i], parent, root, dofs);
    }
  }

  /** The i-th child frame is the pose of the i-th child. */
  lemma {:induction false} PoseAllAt(e: Elementary, cs: seq<Link>, parent: Mat4, root: Mat4, dofs: seq<real>, i: nat)
    requires DofsCover(JointsOfAll(cs), dofs)
    requires i < |cs|
    ensures DofsCover(JointsOf(cs[i]), dofs)
    ensures PoseAll(e, cs, parent, root, dofs)[i] == Pose(e, cs[i], parent, root, dofs)
    decreases i
  {
    if i > 0 {
      PoseAllAt(e, cs[1..], parent, root, dofs, i - 1);
    }
  }

  // ---------------------------------------------------------------------------
  // Re-centring joint ranges (`Link.convert_to_zero_mean`)

  function Mean(j: Joint): real {
    (j.min + j.max) / 2.0
  }

  /** A joint whose range is shifted by its own mean. */
  function Recenter(j: Joint): (r: Joint)
    ensures r.min == -r.max
    ensures r.max - r.min == j.max - j.min
    ensures r.(min := j.min, max := j.max) == j
  {
    j.(min := j.min - Mean(j), max := j.max - Mean(j))
  }

  /** Re-centring moves a joint's range by its mean `m` and folds a rotation
      of `m` about z into the offset. Driven by the actuation shifted by `m`,
      the joint then turns the link about z by its old angle plus
      `m·(1 − mul)`, so the rotation is kept exactly when the joint is not
      scaled (`mul = 1`) or its range was already centred. */
  lemma RecenteredAngle(j: Joint, dofs: seq<real>)
    requires j.id < |dofs|
    ensures var shifted := dofs[j.id := dofs[j.id] - Mean(j)];
            JointAngle(Recenter(j), shifted) + Mean(j) == JointAngle(j, dofs) + Mean(j) * (1.0 - j.mul)
    ensures var shifted := dofs[j.id := dofs[j.id] - Mean(j)];
            JointAngle(Recenter(j), shifted) + Mean(j) == JointAngle(j, dofs) <==> j.mul == 1.0 || Mean(j) == 0.0
  {
    var m := Mean(j);
    var shifted := dofs[j.id := dofs[j.id] - m];
    var c := Clamp(dofs[j.id], j.min, j.max);
    assert Clamp(shifted[j.id], Recenter(j).min, Recenter(j).max) == c - m;
    ShiftedScale(c, m, j.mul, j.trans);
    ProductVanishes(m, 1.0 - j.mul);
  }

  /** Scaling a value shifted down by `m`, then adding `m` back, drifts by
      `m·(1 − mul)`. */
  lemma ShiftedScale(c: real, m: real, mul: real, trans: real)
    ensures (c - m) * mul + trans + m == c * mul + trans + m * (1.0 - mul)
  {
    assert (c - m) * mul == c * mul - m * mul;
    assert m * (1.0 - mul) == m - m * mul;
  }

  lemma ProductVanishes(a: real, b: real)
    ensures a * b == 0.0 <==> a == 0.0 || b == 0.0
  {
    if a > 0.0 && b > 0.0 { assert a * b > 0.0; }
    else if a > 0.0 && b < 0.0 { assert a * b < 0.0; }
    else if a < 0.0 && b > 0.0 { assert a * b < 0.0; }
    else if a < 0.0 && b < 0.0 { assert a * b > 0.0; }
  }

  /** The rotation folded into the offset and the re-centred joint together:
      driven by the actuation shifted by the mean `m`, the joint's z part
      behind the folded rotation is the original joint's z part turned by
      `m·(1 − mul)`, and exactly the original one when `mul = 1`. */
  lemma RecenteredJointTurn(e: Elementary, j: Joint, dofs: seq<real>)
    requires j.id < |dofs|
    requires AddsAngles(e, Mean(j), JointAngle(Recenter(j), dofs[j.id := dofs[j.id] - Mean(j)]))
    ensures var m := Mean(j);
            var shifted := dofs[j.id := dofs[j.id] - m];
            Mul4(RotZ(e.cos(m), e.sin(m)), ZPart(e, JointAngle(Recenter(j), shifted), j.d))
            == ZPart(e, JointAngle(j, dofs) + m * (1.0 - j.mul), j.d)
    ensures var m := Mean(j);
            var shifted := dofs[j.id := dofs[j.id] - m];
            j.mul == 1.0 ==>
              Mul4(RotZ(e.cos(m), e.sin(m)), ZPart(e, JointAngle(Recenter(j), shifted), j.d)) == ZPart(e, JointAngle(j, dofs), j.d)
  {
    var m := Mean(j);
    var a := JointAngle(Recenter(j), dofs[j.id := dofs[j.id] - m]);
    RecenteredAngle(j, dofs);
    RotZTurnsZPart(e, m, a, j.d);
    assert m + a == JointAngle(j, dofs) + m * (1.0 - j.mul);
  }

  /** `r` is `l` re-centred link by link: a jointed link gets the rotation by
      its first joint's mean folded into its offset and that joint
      re-centred; a jointless link keeps its offset; meshes, end effectors
      and all later joints are kept. With `refresh` a jointed link's cached
      top rows follow its new offset; without it every cache is kept. */
  predicate FoldedFrom(e: Elementary, r: Link, l: Link, refresh: bool)
    decreases l
  {
    && r.mesh == l.mesh && r.effectors == l.effectors
    && (l.joints == [] ==> r.offset == l.offset && r.offsetTop == l.offsetTop && r.joints == [])
    && (l.joints != [] ==>
          var m := Mean(l.joints[0]);
          && r.offset == Mul4(l.offset, RotZ(e.cos(m), e.sin(m)))
          && r.offsetTop == (if refresh then TopRows(r.offset) else l.offsetTop)
          && r.joints == [Recenter(l.joints[0])] + l.joints[1..])
    && |r.children| == |l.children|
    && forall i | 0 <= i < |l.children| :: FoldedFrom(e, r.children[i], l.children[i], refresh)
  }

  /** The offset with the mean angle of the first joint folded in as a
      rotation about z. */
  function RecenteredOffset(e: Elementary, l: Link): Mat4
    requires l.joints != []
  {
    var mean := Mean(l.joints[0]);
    Mul4(l.offset, RotZ(e.cos(mean), e.sin(mean)))
  }

  /** `convert_to_zero_mean` as written: the plain offset is updated, but the
      cached top rows the batched path reads are left as they were. */
  function ConvertToZeroMeanAsWritten(e: Elementary, l: Link): (r: Link)
    ensures Centred(r)
    decreases l
  {
    var cs := ZeroMeanAllAsWritten(e, l.children);
    if l.joints == [] then l.(children := cs)
    else l.(offset := RecenteredOffset(e, l), joints := [Recenter(l.joints[0])] + l.joints[1..], children := cs)
  }

  function ZeroMeanAllAsWritten(e: Elementary, cs: seq<Link>): (rs: seq<Link>)
    ensures |rs| == |cs|
    ensures forall i | 0 <= i < |rs| :: rs[i] == ConvertToZeroMeanAsWritten(e, cs[i]) && Centred(rs[i])
    decreases cs
  {
    if cs == [] then []
    else [ConvertToZeroMeanAsWritten(e, cs[0])] + ZeroMeanAllAsWritten(e, cs[1..])
  }

  /** Every joint of `ys` is the joint at the same place in `xs`, either
      untouched or re-centred. */
  predicate RecenteredFrom(xs: seq<Joint>, ys: seq<Joint>) {
    && |xs| == |ys|
    && forall i | 0 <= i < |xs| :: ys[i] == xs[i] || ys[i] == Recenter(xs[i])
  }

  /** Every joint of `ys` is the re-centred joint at the same place in `xs`. */
  predicate AllRecenteredFrom(xs: seq<Joint>, ys: seq<Joint>) {
    && |xs| == |ys|
    && forall i | 0 <= i < |xs| :: ys[i] == Recenter(xs[i])
  }

  /** The first joint of every jointed link in the subtree has a range
      symmetric about zero. */
  predicate Centred(l: Link)
    decreases l
  {
    && (l.joints != [] ==> l.joints[0].min == -l.joints[0].max)
    && forall i | 0 <= i < |l.children| :: Centred(l.children[i])
  }

  /** `convert_to_zero_mean` with the cached top rows refreshed along with the
      offset, so that both kinematics paths see the re-centred offset. The
      first joint of every jointed link ends up symmetric about zero with its
      width kept; every other joint record is left as it was. */
  function ConvertToZeroMean(e: Elementary, l: Link): (r: Link)
    ensures Centred(r)
    decreases l
  {
    var cs := ZeroMeanAll(e, l.children);
    if l.joints == [] then l.(children := cs)
    else
      var o := RecenteredOffset(e, l);
      l.(offset := o, offsetTop := TopRows(o), joints := [Recenter(l.joints[0])] + l.joints[1..], children := cs)
  }

  function ZeroMeanAll(e: Elementary, cs: seq<Link>): (rs: seq<Link>)
    ensures |rs| == |cs|
    ensures forall i | 0 <= i < |rs| :: rs[i] == ConvertToZeroMean(e, cs[i]) && Centred(rs[i])
    decreases cs
  {
    if cs == [] then []
    else [ConvertToZeroMean(e, cs[0])] + ZeroMeanAll(e, cs[1..])
  }

  /** Both versions of the rewrite fold each jointed link's mean rotation into
      its offset and re-centre its first joint, everywhere in the tree; only
      the corrected one refreshes the cached top rows. */
  lemma {:induction false} ZeroMeanFolds(e: Elementary, l: Link)
    ensures FoldedFrom(e, ConvertToZeroMean(e, l), l, true)
    ensures FoldedFrom(e, ConvertToZeroMeanAsWritten(e, l), l, false)
    decreases l
  {
    forall i | 0 <= i < |l.children|
      ensures FoldedFrom(e, ConvertToZeroMean(e, l).children[i], l.children[i], true)
      ensures FoldedFrom(e, ConvertToZeroMeanAsWritten(e, l).children[i], l.children[i], false)
    {
      ZeroMeanFolds(e, l.children[i]);
    }
  }

  /** Re-centring touches only the first joint of each link: every joint of
      the result is the original joint, re-centred or untouched. */
  lemma {:induction false} ZeroMeanJoints(e: Elementary, l: Link)
    ensures RecenteredFrom(JointsOf(l), JointsOf(ConvertToZeroMean(e, l)))
    decreases l
  {
    var r := ConvertToZeroMean(e, l);
    ZeroMeanAllJoints(e, l.children);
    assert RecenteredFrom(l.joints, r.joints) by {
      if l.joints != [] {
        assert r.joints[0] == Recenter(l.joints[0]);
        assert forall i | 1 <= i < |l.joints| :: r.joints[i] == l.joints[i];
      }
    }
    RecenteredAppend(l.joints, r.joints, JointsOfAll(l.children), JointsOfAll(r.children));
  }

  lemma {:induction false} ZeroMeanAllJoints(e: Elementary, cs: seq<Link>)
    ensures RecenteredFrom(JointsOfAll(cs), JointsOfAll(ZeroMeanAll(e, cs)))
    decreases cs
  {
    if cs != [] {
      var rs := ZeroMeanAll(e, cs);
      assert rs[1..] == ZeroMeanAll(e, cs[1..]);
      ZeroMeanJoints(e, cs[0]);
      ZeroMeanAllJoints(e, cs[1..]);
      RecenteredAppend(JointsOf(cs[0]), JointsOf(rs[0]), JointsOfAll(cs[1..]), JointsOfAll(rs[1..]));
    }
  }

  /** The corrected conversion keeps the batched path's cached top rows in
      step with the offsets. */
  lemma {:induction false} ZeroMeanKeepsSynced(e: Elementary, l: Link)
    requires AllSynced(l)
    ensures AllSynced(ConvertToZeroMean(e, l))
    decreases l
  {
    var r := ConvertToZeroMean(e, l);
    forall i | 0 <= i < |l.children|
      ensures AllSynced(r.children[i])
    {
      ZeroMeanKeepsSynced(e, l.children[i]);
    }
    if l.joints != [] {
      HomogeneousProduct(l.offset, RotZ(e.cos(Mean(l.joints[0])), e.sin(Mean(l.joints[0]))));
    }
  }

  /** Re-centring keeps the number of links. */
  lemma {:induction false} ZeroMeanKeepsLinks(e: Elementary, l: Link)
    ensures |Flatten(ConvertToZeroMean(e, l))| == |Flatten(l)|
    decreases l
  {
    ZeroMeanAllKeepsLinks(e, l.children);
  }

  lemma {:induction false} ZeroMeanAllKeepsLinks(e: Elementary, cs: seq<Link>)
    ensures |FlattenAll(ZeroMeanAll(e, cs))| == |FlattenAll(cs)|
    decreases cs
  {
    if cs != [] {
      var rs := ZeroMeanAll(e, cs);
      assert rs[1..] == ZeroMeanAll(e, cs[1..]);
      ZeroMeanKeepsLinks(e, cs[0]);
      ZeroMeanAllKeepsLinks(e, cs[1..]);
    }
  }

  /** Once every link has at most one joint, every joint record is re-centred. */
  lemma {:induction false} ZeroMeanRecentresSingleJoints(e: Elementary, l: Link)
    requires AtMostJoints(l, 1)
    ensures AllRecenteredFrom(JointsOf(l), JointsOf(ConvertToZeroMean(e, l)))
    decreases l
  {
    var r := ConvertToZeroMean(e, l);
    ZeroMeanAllRecentresSingleJoints(e, l.children);
    assert AllRecenteredFrom(l.joints, r.joints);
    AllRecenteredAppend(l.joints, r.joints, JointsOfAll(l.children), JointsOfAll(r.children));
  }

  lemma {:induction false} ZeroMeanAllRecentresSingleJoints(e: Elementary, cs: seq<Link>)
    requires forall i | 0 <= i < |cs| :: AtMostJoints(cs[i], 1)
    ensures AllRecenteredFrom(JointsOfAll(cs), JointsOfAll(ZeroMeanAll(e, cs)))
    decreases cs
  {
    if cs != [] {
      var rs := ZeroMeanAll(e, cs);
      assert rs[1..] == ZeroMeanAll(e, cs[1..]);
      ZeroMeanRecentresSingleJoints(e, cs[0]);
      ZeroMeanAllRecentresSingleJoints(e, cs[1..]);
      AllRecenteredAppend(JointsOf(cs[0]), JointsOf(rs[0]), JointsOfAll(cs[1..]), JointsOfAll(rs[1..]));
    }
  }

  lemma RecenteredAppend(xs: seq<Joint>, ys: seq<Joint>, xs': seq<Joint>, ys': seq<Joint>)
    requires RecenteredFrom(xs, ys) && RecenteredFrom(xs', ys')
    ensures RecenteredFrom(xs + xs', ys + ys')
  {
    forall i | 0 <= i < |xs + xs'|
      ensures (ys + ys')[i] == (xs + xs')[i] || (ys + ys')[i] == Recenter((xs + xs')[i])
    {
      if i >= |xs| {
        assert (ys + ys')[i] == ys'[i - |xs|] && (xs + xs')[i] == xs'[i - |xs|];
      }
    }
  }

  lemma AllRecenteredAppend(xs: seq<Joint>, ys: seq<Joint>, xs': seq<Joint>, ys': seq<Joint>)
    requires AllRecenteredFrom(xs, ys) && AllRecenteredFrom(xs', ys')
    ensures AllRecenteredFrom(xs + xs', ys + ys')
  {
    forall i | 0 <= i < |xs + xs'|
      ensures (ys + ys')[i] == Recenter((xs + xs')[i])
    {
      if i >= |xs| {
        assert (ys + ys')[i] == ys'[i - |xs|] && (xs + xs')[i] == xs'[i - |xs|];
      }
    }
  }

  /** Every jointed link of the subtree has its cached top rows in step with
      its offset. */
  predicate JointedTopsFresh(l: Link)
    decreases l
  {
    && (l.joints != [] ==> l.offsetTop == TopRows(l.offset))
    && forall i | 0 <= i < |l.children| :: JointedTopsFresh(l.children[i])
  }

  lemma {:induction false} ZeroMeanIsFresh(e: Elementary, l: Link)
    ensures JointedTopsFresh(ConvertToZeroMean(e, l))
    decreases l
  {
    var r := ConvertToZeroMean(e, l);
    forall i | 0 <= i < |l.children|
      ensures JointedTopsFresh(r.children[i])
    {
      ZeroMeanIsFresh(e, l.children[i]);
    }
  }

  /** On a centred tree whose jointed links have fresh cached rows the
      rewrite changes nothing, provided the cosine of 0 is 1 and its sine 0:
      every mean is 0 and the folded rotation is the identity. */
  lemma {:induction false} ZeroMeanIsIdentityWhenCentred(e: Elementary, l: Link)
    requires e.cos(0.0) == 1.0 && e.sin(0.0) == 0.0
    requires Centred(l) && JointedTopsFresh(l)
    ensures ConvertToZeroMean(e, l) == l
    decreases l
  {
    var r := ConvertToZeroMean(e, l);
    forall i | 0 <= i < |l.children|
      ensures r.children[i] == l.children[i]
    {
      ZeroMeanIsIdentityWhenCentred(e, l.children[i]);
    }
    assert r.children == l.children;
    if l.joints != [] {
      var j := l.joints[0];
      assert Mean(j) == 0.0;
      assert Recenter(j) == j;
      assert RotZ(e.cos(0.0), e.sin(0.0)) == Identity4();
      MulIdentityRight(l.offset);
      assert [Recenter(j)] + l.joints[1..] == l.joints;
    }
  }

  /** Applying the rewrite twice is the same as applying it once. */
  lemma ZeroMeanTwiceIsZeroMeanOnce(e: Elementary, l: Link)
    requires e.cos(0.0) == 1.0 && e.sin(0.0) == 0.0
    ensures ConvertToZeroMean(e, ConvertToZeroMean(e, l)) == ConvertToZeroMean(e, l)
  {
    ZeroMeanIsFresh(e, l);
    ZeroMeanIsIdentityWhenCentred(e, ConvertToZeroMean(e, l));
  }

  /** `w` is `r` with, at every link, the cached top rows of the link at the
      same place in `l`. */
  predicate CachesKeptFrom(w: Link, r: Link, l: Link)
    decreases l
  {
    && w == r.(offsetTop := l.offsetTop, children := w.children)
    && |w.children| == |l.children| && |r.children| == |l.children|
    && forall i | 0 <= i < |l.children| :: CachesKeptFrom(w.children[i], r.children[i], l.children[i])
  }

  /** The as-written conversion is the corrected one except that every
      link keeps the cached top rows it had before: the offsets, joints and
      end effectors agree, only the batched path's cache is left behind. */
  lemma {:induction false} ZeroMeanAsWrittenKeepsCaches(e: Elementary, l: Link)
    ensures CachesKeptFrom(ConvertToZeroMeanAsWritten(e, l), ConvertToZeroMean(e, l), l)
    decreases l
  {
    var w := ConvertToZeroMeanAsWritten(e, l);
    var r := ConvertToZeroMean(e, l);
    forall i | 0 <= i < |l.children|
      ensures CachesKeptFrom(w.children[i], r.children[i], l.children[i])
    {
      ZeroMeanAsWrittenKeepsCaches(e, l.children[i]);
    }
  }
  /** A one-link hand whose joint ranges over [0, 2], so its mean angle is 1. */
  function OffCentreHand(): Link {
    Link(Some(Mesh([], true)), Identity4(), TopRows(Identity4()),
         [Joint(0, 1.0, 0.0, 0.0, 0.0, 0.0, 0.0, 2.0)], [], [])
  }

  /** At angle 0 with all other DH parameters 0, both DH constructions give
      the identity. */
  lemma ZeroAngleJointIsIdentity(e: Elementary, j: Joint, dofs: seq<real>)
    requires e.cos(0.0) == 1.0 && e.sin(0.0) == 0.0
    requires j.id < |dofs| && j.d == 0.0 && j.r == 0.0 && j.alpha == 0.0
    requires JointAngle(j, dofs) == 0.0
    ensures JointTransform(e, j, dofs) == Identity4()
    ensures JointTransformBatched(e, j, dofs) == Identity4()
  {
    DH2TransFactors(e, 0.0, 0.0, 0.0, 0.0);
    BatchedDHAgrees(e, 0.0, 0.0, 0.0, 0.0);
    var dh := DHMatrix(e, 0.0, 0.0, 0.0, 0.0);
    assert dh[0] == Identity4()[0] && dh[1] == Identity4()[1] && dh[2] == Identity4()[2];
  }

  /** The as-written conversion of the one-link hand: offset rotated by the
      mean angle 1, cached top rows still those of the identity. */
  lemma OffCentreHandAsWritten(e: Elementary)
    ensures var w := ConvertToZeroMeanAsWritten(e, OffCentreHand());
            && w.offset == Mul4(Identity4(), RotZ(e.cos(1.0), e.sin(1.0)))
            && w.offsetTop == TopRows(Identity4())
            && w.joints == [Joint(0, 1.0, 0.0, 0.0, 0.0, 0.0, -1.0, 1.0)]
            && w.children == [] && w.effectors == []
  {
    var l := OffCentreHand();
    assert Mean(l.joints[0]) == 1.0;
    assert l.joints[1..] == [];
  }

  /** The plain path's frame for a link whose only joint sits at angle 0,
      posed under the identity. */
  lemma ZeroAnglePlainFrame(e: Elementary, w: Link, dofs: seq<real>)
    requires e.cos(0.0) == 1.0 && e.sin(0.0) == 0.0
    requires |w.joints| == 1 && w.children == []
    requires w.joints[0].id < |dofs| && JointAngle(w.joints[0], dofs) == 0.0
    requires w.joints[0].d == 0.0 && w.joints[0].r == 0.0 && w.joints[0].alpha == 0.0
    ensures DofsCover(JointsOf(w), dofs)
    ensures Pose(e, w, Identity4(), Identity4(), dofs).transform == Mul4(Identity4(), w.offset)
  {
    assert JointsOf(w) == w.joints + JointsOfAll([]);
    var j := w.joints[0];
    ZeroAngleJointIsIdentity(e, j, dofs);
    var m := Mul4(Identity4(), w.offset);
    MulIdentityRight(m);
    assert w.joints[1..] == [];
    assert Chain(e, m, w.joints, dofs) == Chain(e, Mul4(m, JointTransform(e, j, dofs)), [], dofs);
    assert LocalFrame(e, w, Identity4(), Identity4(), dofs) == m;
  }

  /** The batched path's frame for the same link. */
  lemma ZeroAngleBatchedFrame(e: Elementary, w: Link, dofs: seq<real>)
    requires e.cos(0.0) == 1.0 && e.sin(0.0) == 0.0
    requires |w.joints| == 1 && w.children == []
    requires w.joints[0].id < |dofs| && JointAngle(w.joints[0], dofs) == 0.0
    requires w.joints[0].d == 0.0 && w.joints[0].r == 0.0 && w.joints[0].alpha == 0.0
    ensures DofsCover(JointsOf(w), dofs)
    ensures Forward(e, w, TopRows(Identity4()), TopRows(Identity4()), dofs).frames[0]
         == Then(ThenPose(TopRows(Identity4()), w.offsetTop), Identity4())
  {
    assert JointsOf(w) == w.joints + JointsOfAll([]);
    var j := w.joints[0];
    ZeroAngleJointIsIdentity(e, j, dofs);
    var q := ThenPose(TopRows(Identity4()), w.offsetTop);
    assert w.joints[1..] == [];
    assert ChainPose(e, q, w.joints, dofs) == ChainPose(e, Then(q, JointTransformBatched(e, j, dofs)), [], dofs);
    assert LocalPose(e, w, TopRows(Identity4()), TopRows(Identity4()), dofs) == Then(q, Identity4());
  }

  /** As written, the conversion leaves the cached top rows stale: on the
      one-link hand at actuation 0 the plain path's frame has rotated by the
      mean angle 1 while the batched path's frame has not, and the corrected
      conversion keeps both in step. */
  lemma ZeroMeanAsWrittenDiverges(e: Elementary)
    requires e.cos(0.0) == 1.0 && e.sin(0.0) == 0.0 && e.sin(1.0) != 0.0
    ensures AllSynced(OffCentreHand())
    ensures !AllSynced(ConvertToZeroMeanAsWritten(e, OffCentreHand()))
    ensures AllSynced(ConvertToZeroMean(e, OffCentreHand()))
    ensures var w := ConvertToZeroMeanAsWritten(e, OffCentreHand());
            && DofsCover(JointsOf(w), [0.0])
            && TopRows(Pose(e, w, Identity4(), Identity4(), [0.0]).transform).rot[1][0] == e.sin(1.0)
            && Forward(e, w, TopRows(Identity4()), TopRows(Identity4()), [0.0]).frames[0].rot[1][0] == 0.0
  {
    var l := OffCentreHand();
    ZeroMeanKeepsSynced(e, l);
    var w := ConvertToZeroMeanAsWritten(e, l);
    OffCentreHandAsWritten(e);
    var o := w.offset;
    assert o[1][0] == e.sin(1.0);
    assert TopRows(o).rot[1][0] != w.offsetTop.rot[1][0];
    ZeroAnglePlainFrame(e, w, [0.0]);
    ZeroAngleBatchedFrame(e, w, [0.0]);
    assert Mul4(Identity4(), o)[1][0] == e.sin(1.0);
    assert Then(ThenPose(TopRows(Identity4()), w.offsetTop), Identity4()).rot[1][0] == 0.0;
  }
}
