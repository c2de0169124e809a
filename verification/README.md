# Kinematic tree of the differentiable grasping hand

This project models the kinematic core of `Hand.py` from the bilevel
differentiable grasp optimisation code. The model is in Dafny, over `real`
arithmetic. A hand is a tree of `Link`s rooted at the palm. Each link has:

- a fixed offset transform;
- zero, one or two Denavit–Hartenberg joints, each recorded as
  `[id, mul, trans, d, r, alpha, min, max]`;
- a list of end-effector points (the mesh vertices by default);
- its child links.

The model covers these parts:

- **`Denavit`** (`dh.dfy`): the DH transform `Z·X` and its batched variant
  `cos θ·Zc + sin θ·Zs + Z0`.
  - `cos`, `sin` and the logistic sigmoid are not computable over the reals,
    so they enter as an `Elementary` record of functions.
  - Every statement holds for any such record, unless a lemma names the
    values it needs, such as `cos 0 = 1`.
- **`Algebra`** (`algebra.dfy`): the 4x4 homogeneous transforms of the plain
  path, and the split (rotation, translation) pair of the batched path.
- **`Links`** (`links.dfy`): the link tree and its reductions. These are
  `max_dof_id`, `lb_ub`, the link count, `build_contacts` and
  `watertight_check`.
- **`Kinematics`** (`kinematics.dfy`): the two forward-kinematics passes.
  - `Link.forward_kinematics` is the plain pass. It returns a `Frames` tree
    that mirrors the link tree, instead of writing `joint_transform` into
    each link.
  - `Link.forward` is the batched (rotation, translation) pass. It returns
    the pre-order list of poses and the transformed end effectors.
  - The plain pass also has `get_end_effector_all`.
- **`Rewrites`** (`rewrites.dfy`): `convert_to_revolute` and
  `convert_to_zero_mean`, modelled as functions from trees to trees rather
  than in-place mutations.
- **`Eigengrasp`** (`eigen.dfy`): the eigengrasp parts of
  `read_eigen_grasp`.
  - It covers reading the origin, reading the two directions, and deriving
    the per-direction coefficient bounds.
  - It also covers the two reparameterisations: the expansion `dir·c + origin`
    and the sigmoid map `s·(ub−lb)+lb`.
- **`HandModel`** (`hand.dfy`): the `Hand` record.
  - It holds the assembly steps of the constructor once the parse is done:
    contacts, eigengrasp, watertightness and link count.
  - It also holds `nr_dof`, `lb_ub` and the joint-vector branches of
    `Hand.forward_kinematics`.
- **`Results`** (`results.dfy`): the exceptions the Python code raises
  (failed `assert`, `IndexError`, `AttributeError` on a cleared mesh)
  become `Failure` values.

Nothing in the model was executed; every statement below is a proof.

**Per-direction bounds only.** The eigengrasp coefficient bounds are sound
one direction at a time:

- With the other coefficient held at zero, any coefficient in
  `[lb_eigen[k], ub_eigen[k]]` keeps every joint that direction moves inside
  its range.
- The code does not promise more than that.
- Using both coefficients at once can leave the range:
  `Eigengrasp.CombinedBoundsCanLeaveRange` exhibits a one-joint file where it
  does.

## Model

| member | source | states |
|---|---|---|
| Denavit.DH2Trans | Hand.py:57-67 | the rotation-about-z part, the twist part and their product are all homogeneous transforms (last row `0 0 0 1`) |
| Denavit.DH2TransFactors | Hand.py:57-67 | the returned transform is the product `Z·X` of the rotation/offset about z and the offset/twist about x |
| Denavit.BatchedDHAgrees | Hand.py:69-89 | the batched construction `cos θ·Zc + sin θ·Zs + Z0`, times `X`, yields the same three matrices as the plain one |
| Denavit.RotZTurnsZPart | Hand.py:57-61 | with angle addition for `cos` and `sin` at `m` and `θ`, a rotation by `m` about z followed by the z part at `θ` is the z part at `m + θ` |
| Denavit.DH2TransBatched | Hand.py:69-89 | the batched DH construction; its meaning is given by `Denavit.BatchedDHAgrees`, which equates it with the plain one |
| Algebra.TopRowsOfProduct | Hand.py:243-256 | updating the split pair (`jt := jr·dht + jt; jr := jr·dhr`) gives exactly the top three rows of the full product with a homogeneous DH matrix |
| Algebra.ComposeSplit | Hand.py:640-644 | composing a root translation and rotation with unit zoom gives a homogeneous transform whose split parts are that rotation and translation |
| Algebra.HomogeneousProduct | Hand.py:226-235 | products of homogeneous transforms stay homogeneous, so every frame along a chain keeps the `0 0 0 1` row |
| Algebra.MulIdentityRight | Hand.py:177-183 | right-multiplying by the identity offset given to a split-off link changes nothing |
| Links.NewLink | Hand.py:142-164 | a new link caches the top three rows of its offset, and its end effectors are its mesh vertices unless contacts are used, in which case it has none |
| Links.LinkCount | Hand.py:478-482 | the link count equals the number of links in the pre-order traversal of the subtree |
| Links.LinkCountAll | Hand.py:478-482 | the children's counts sum to the number of links under them |
| Links.MaxIdFrom | Hand.py:207-209 | the running maximum over a joint list bounds every id and the start value, and equals one of them |
| Links.MaxDofId | Hand.py:204-212 | the result bounds every joint id in the subtree and is either 0 or the id of some joint, so it is the maximum id, and 0 with no joints |
| Links.MaxDofIdFrom | Hand.py:210-212 | folding the children into the running maximum bounds every id below them and equals the start value or one of those ids |
| Links.WriteJoints | Hand.py:214-218 | after writing a joint list, every slot holds the min/max of the last joint in the list with that id, and slots no joint names keep their value |
| Links.WriteJointsAppend | Hand.py:214-221 | writing two joint lists in turn is writing their concatenation |
| Links.LbUb | Hand.py:214-221 | the tree walk writes the subtree's joints in pre-order, so the last joint visited with an id wins |
| Links.LbUbAll | Hand.py:219-221 | the children's walks together write the pre-order joints of all children |
| Links.AllEffectors | Hand.py:471-476 | the intended contact list is the end effectors of every link in pre-order |
| Links.AllEffectorsOf | Hand.py:471-476 | the same list for a sequence of children |
| Links.BuildContacts | Hand.py:471-476 | the returned contacts are a prefix of all end effectors, and equal all of them exactly when the children carry none |
| Links.BuildContactsDropsChildren | Hand.py:471-476 | a palm with one child carrying one point gets no contacts, although the full list has that point |
| Links.WatertightCheckIsLastLink | Hand.py:484-498 | the check fails with a missing mesh when a link of the subtree has no mesh, and otherwise returns the flag of the last link in pre-order |
| Links.WatertightCheck | Hand.py:484-498 | `watertight_check` as written, with a cleared mesh failing; its result is characterised by `Links.WatertightCheckIsLastLink` |
| Links.WatertightFromIsLastLink | Hand.py:496-498 | folding the check over the children returns the flag of the last link under them, or the start flag when there is none |
| Links.AllWatertight | Hand.py:484-498 | the intended check: it fails with a missing mesh when any mesh is absent, and is otherwise true exactly when every link is watertight |
| Links.AllWatertightOf | Hand.py:496-497 | the same for a sequence of children |
| Links.WatertightCheckMissesPalm | Hand.py:484-498 | a non-watertight palm with one watertight child is reported watertight, while the intended check reports false |
| Kinematics.Clamp | Hand.py:229-231 | the clamped value lies in `[min, max]` when `min <= max`, equals the input when the input is in range, becomes the bound it crosses otherwise, and is `max` whenever `min > max` |
| Kinematics.Pose | Hand.py:223-236 | the frame tree has the same shape as the link tree |
| Kinematics.PoseAll | Hand.py:234-236 | one frame tree per child, each shaped like its child |
| Kinematics.JointlessLinksGetRoot | Hand.py:224-225 | every jointless link in the subtree, at any depth, gets exactly the root transform |
| Kinematics.JointlessLinksGetRootAll | Hand.py:234-236 | the same for every jointless link under a sequence of children |
| Kinematics.JointedFrame | Hand.py:226-233 | a jointed link's frame is `parent · offset · DH₁ · DH₂ …` in joint order, each `DH` the `Z·X` transform at angle `clamp(dof)·mul + trans` |
| Kinematics.ChainIsChainDH | Hand.py:228-233 | the per-joint update agrees with right-multiplying by `DH2trans` of the clamped, scaled and shifted angle |
| Kinematics.QuarterTurnChain | Hand.py:223-236 | a concrete hand: a palm at the identity with one finger whose joint has `r = 1` and range `[0, pi/2]`, driven to `pi/2`, puts the finger's origin at `(0, 1, 0)` |
| Kinematics.PreOrderSize | Hand.py:234-236 | the pre-order frame list has one frame per link of the subtree |
| Kinematics.PreOrderSizeAll | Hand.py:234-236 | the same for a sequence of children |
| Kinematics.EndEffectorsArePreOrder | Hand.py:323-332 | the collected points are, link by link in pre-order, `R·p + t` of each end effector `p` under that link's own frame |
| Kinematics.EndEffectorsAll | Hand.py:323-332 | `get_end_effector_all` on a posed tree; `Kinematics.EndEffectorsArePreOrder` and `Kinematics.EndEffectorCount` give its contents and length |
| Kinematics.EndEffectorsArePreOrderAll | Hand.py:329-331 | the same for the children's concatenated results |
| Kinematics.EndEffectorCount | Hand.py:323-332 | one point per end-effector entry in the subtree |
| Kinematics.EndEffectorCountAll | Hand.py:329-331 | the same for a sequence of children |
| Kinematics.GatherAppend | Hand.py:329-331 | transforming points link by link distributes over concatenation |
| Kinematics.Forward | Hand.py:238-273 | the batched pass returns one pose per link and one point per end effector of the subtree |
| Kinematics.ForwardAll | Hand.py:262-272 | the same for a sequence of children |
| Kinematics.ChainAgrees | Hand.py:249-256 | the split per-joint update over a joint list keeps the pair equal to the top rows of the plain chain |
| Kinematics.LocalPoseAgrees | Hand.py:238-257 | when the cached top rows match the offset, one link's batched pose is the top three rows of its plain frame |
| Kinematics.LocalFrame | Hand.py:223-233 | one link's frame on the plain path; `Kinematics.JointlessLinksGetRoot` and `Kinematics.JointedFrame` give both of its cases |
| Kinematics.ChainPose | Hand.py:249-256 | the batched per-joint update of the split pair; `Kinematics.ChainAgrees` equates it with the top rows of the plain chain |
| Kinematics.ApplyPoseAllTopRows | Hand.py:260-261 | applying the split pair to points is applying the 4x4 transform's rotation and translation |
| Kinematics.BatchedAgreesWithPlain | Hand.py:238-273 | when every cached top-row offset matches its link's offset, the batched poses are the top rows of the plain frames in pre-order, and the batched points are the plain end-effector points |
| Kinematics.BatchedAgreesWithPlainAll | Hand.py:262-272 | the same for a sequence of children |
| Rewrites.ConvertToRevolute | Hand.py:177-192 | afterwards every link has at most one joint, each split adds exactly one link, and with at most two joints per link the pre-order joint list is unchanged |
| Rewrites.ConvertedLinkShape | Hand.py:177-190 | a split link loses its mesh and keeps its offset, cached rows, first joint and end effectors; its one new child has the mesh, the identity offset, the second joint, the mesh vertices as end effectors and the converted children; any other link keeps everything but its converted children |
| Rewrites.SplitDuplicatesVertices | Hand.py:177-190 | a two-joint link with the one-vertex mesh `[p]`, created without contacts, has points `[p]` before the split and `[p, p]` after it |
| Rewrites.ConvertAll | Hand.py:191-192 | the same three facts over a sequence of children |
| Rewrites.ConvertIsIdentityWhenSplit | Hand.py:178 | a tree whose links all have at most one joint is left unchanged |
| Rewrites.ConvertAllIsIdentityWhenSplit | Hand.py:191-192 | the same for a sequence of children |
| Rewrites.ConvertTwiceIsConvertOnce | Hand.py:177-192 | converting is idempotent |
| Rewrites.MaxDofIdOfSameJoints | Hand.py:204-212 | the maximum id depends only on the pre-order joint list |
| Rewrites.ConvertKeepsDofsAndBounds | Hand.py:177-192 | splitting preserves the dof count and the bounds `lb_ub` writes |
| Rewrites.ConvertAllAt | Hand.py:191-192 | each converted child is the conversion of the original child |
| Rewrites.ConvertedLinkFrame | Hand.py:177-192 | for a split link, the new middle link's frame is the original link's frame and its children are posed against it; an unsplit link keeps its frame |
| Rewrites.FirstHalfFrame | Hand.py:177-190 | the first half of a split link is posed at `parent · offset · DH₁`, the original chain stopped after the first joint |
| Rewrites.ConvertKeepsFrames | Hand.py:177-192 | forward kinematics on the converted tree, with each middle link collapsed into its parent, gives exactly the frames of the original tree |
| Rewrites.PoseAllAt | Hand.py:234-236 | each child's frame tree is that child's own pose |
| Rewrites.Recenter | Hand.py:194-200 | the re-centred range is symmetric (`min = -max`), keeps its width, and nothing else about the joint changes |
| Rewrites.ConvertToZeroMean | Hand.py:194-202 | the corrected rewrite, which also refreshes the cached top rows: every jointed link of the result has a first joint with a symmetric range; the offset fold at each link is given by `Rewrites.ZeroMeanFolds` |
| Rewrites.ZeroMeanAll | Hand.py:201-202 | each child is converted in place, and each result is centred |
| Rewrites.RecenteredAngle | Hand.py:194-200 | driven by the actuation shifted by the mean `m`, the re-centred joint's angle plus `m` is the old angle plus `m·(1 − mul)`, and equals the old angle exactly when `mul = 1` or `m = 0` |
| Rewrites.RecenteredJointTurn | Hand.py:194-200 | with angle addition at the angles involved, the rotation by `m` folded into the offset followed by the re-centred joint's z part is the original joint's z part turned by `m·(1 − mul)`, and exactly the original one when `mul = 1` |
| Rewrites.ZeroMeanFolds | Hand.py:194-202 | at every link of the tree, both versions fold the rotation by the first joint's mean into a jointed link's offset and re-centre that joint, keep a jointless link's offset, and keep meshes, end effectors and later joints; the corrected one refreshes a jointed link's cached rows, the as-written one keeps every cache |
| Rewrites.ConvertToZeroMeanAsWritten | Hand.py:194-202 | the rewrite as written, leaving the cached top rows alone: every jointed link of the result has a first joint with a symmetric range; the offset fold at each link is given by `Rewrites.ZeroMeanFolds` |
| Rewrites.ZeroMeanAllAsWritten | Hand.py:201-202 | each child is converted as written, and each result is centred |
| Rewrites.ZeroMeanAsWrittenKeepsCaches | Hand.py:194-202 | for every tree, the as-written result equals the corrected one except that each link keeps the cached top rows it had before the call |
| Rewrites.ZeroMeanJoints | Hand.py:194-202 | the pre-order joint list keeps its length and ids, and each joint is either unchanged or re-centred |
| Rewrites.ZeroMeanAllJoints | Hand.py:201-202 | the same for a sequence of children |
| Rewrites.ZeroMeanRecentresSingleJoints | Hand.py:194-202 | when each link has at most one joint, every joint of the tree is re-centred |
| Rewrites.ZeroMeanAllRecentresSingleJoints | Hand.py:201-202 | the same for a sequence of children |
| Rewrites.ZeroMeanKeepsLinks | Hand.py:194-202 | the tree keeps its number of links |
| Rewrites.ZeroMeanAllKeepsLinks | Hand.py:201-202 | the same for a sequence of children |
| Rewrites.ZeroMeanKeepsSynced | Hand.py:153 | when the cached top rows matched every offset before, they still do after re-centring, so the batched pass stays equal to the plain one |
| Rewrites.ZeroMeanIsFresh | Hand.py:153 | after the corrected re-centring, every jointed link's cached top rows match its offset |
| Rewrites.ZeroMeanIsIdentityWhenCentred | Hand.py:194-202 | a tree that is already centred, with fresh caches, is left unchanged (a zero-angle rotation is the identity) |
| Rewrites.ZeroMeanTwiceIsZeroMeanOnce | Hand.py:194-202 | re-centring is idempotent |
| Rewrites.ZeroAngleJointIsIdentity | Hand.py:57-89 | a joint with zero angle, zero offsets and zero twist contributes the identity on both paths |
| Rewrites.OffCentreHandAsWritten | Hand.py:194-200 | on a one-link hand with range `[0, 2]`, the code as written rotates the offset by 1 rad and shifts the range to `[-1, 1]`, but leaves the cached top rows at the old offset |
| Rewrites.ZeroAnglePlainFrame | Hand.py:226-233 | with a zero-angle joint, the plain frame is the offset |
| Rewrites.ZeroAngleBatchedFrame | Hand.py:243-256 | with a zero-angle joint, the batched pose is the cached top rows of the offset |
| Rewrites.ZeroMeanAsWrittenDiverges | Hand.py:194-202 | on that hand, the cache goes stale only under the code as written, and the plain and batched passes then disagree at dof 0 |
| Eigengrasp.Tighten | Hand.py:522-534 | a zero entry leaves the interval as it was |
| Eigengrasp.TightenExact | Hand.py:522-534 | a coefficient lies in the tightened interval exactly when it lay in the old one and, for a non-zero entry, keeps that joint inside `[lb, ub]` |
| Eigengrasp.WritesBelow | Hand.py:520-523 | each write names a joint below the dof count that has an attribute, with that attribute's value |
| Eigengrasp.WritesBelowComplete | Hand.py:520-523 | every present attribute below the dof count is written |
| Eigengrasp.Writes | Hand.py:520-523 | every write across the element list names a joint below the dof count |
| Eigengrasp.Zeros | Hand.py:504-505 | the fresh origin or column has one zero per joint |
| Eigengrasp.Column | Hand.py:520-523 | the written column keeps the joint count |
| Eigengrasp.ColumnLastWrite | Hand.py:520-523 | each column entry is the last value written to that joint, or the start value when none is |
| Eigengrasp.NarrowExact | Hand.py:517-537 | a coefficient lies in the narrowed interval exactly when it lies in the start interval and keeps every joint with a non-zero entry in range |
| Eigengrasp.ColumnAppend | Hand.py:520-523 | writing two write lists in turn is writing their concatenation |
| Eigengrasp.NarrowAppend | Hand.py:520-534 | narrowing by two write lists in turn is narrowing by their concatenation |
| Eigengrasp.ReadDimVals | Hand.py:521-534 | the per-element loop writes exactly that element's present attributes and narrows by each of them |
| Eigengrasp.DimValsStep | Hand.py:521-534 | looking at one joint writes its attribute into the column and tightens the interval when the attribute is present, and changes nothing otherwise |
| Eigengrasp.ReadDirection | Hand.py:517-535 | the loop over `DimVals` elements computes the direction's column and bounds in document order, from zero and the unbounded interval |
| Eigengrasp.DirectionSound | Hand.py:517-535 | any coefficient in a direction's bounds keeps every joint with a non-zero entry in range |
| Eigengrasp.SingleDimValsColumn | Hand.py:520-523 | with one element, a column entry is the attribute's value, or zero when the attribute is absent |
| Eigengrasp.SingleDimValsExact | Hand.py:517-535 | with one element, the bounds contain exactly the coefficients that keep every moved joint in range |
| Eigengrasp.NonZero | Hand.py:524-534 | the non-zero filter keeps only writes of the original that carry a non-zero value |
| Eigengrasp.ZeroEntriesDoNotTighten | Hand.py:524-534 | dropping zero entries leaves the bounds unchanged |
| Eigengrasp.ReadOrigin | Hand.py:510-513 | reading succeeds exactly when every element has every `d<k>` attribute, has one entry per joint, is zero with no element, and otherwise the last element wins |
| Eigengrasp.ReadEigenGrasp | Hand.py:500-538 | it fails exactly when an origin attribute is missing or the file does not have two directions; on success the origin is the one read, column `k` of the direction matrix and the bounds `[lb[k], ub[k]]` are those read from direction `k`, and the bounds of each direction are sound |
| Eigengrasp.Expand | Hand.py:597-599 | the expansion has one value per joint |
| Eigengrasp.ExpandAlongOneDirection | Hand.py:597-599 | expanding a coefficient in a direction's bounds, with the other coefficient at zero, keeps every moved joint in range |
| Eigengrasp.UnitWrites | Hand.py:520-523 | a one-attribute element produces one write |
| Eigengrasp.UnitDirection | Hand.py:517-535 | a unit direction on a joint with range `[-1, 1]` gets bounds `[-1, 1]` |
| Eigengrasp.UnitOrigin | Hand.py:510-513 | a one-attribute origin element reads as that value |
| Eigengrasp.CombinedBoundsCanLeaveRange | Hand.py:517-538 | both coefficients at their upper bounds can put a joint outside its range |
| Eigengrasp.SquashBelow | Hand.py:608 | a sigmoid value below 1 maps strictly below `ub` |
| Eigengrasp.SquashAbove | Hand.py:608 | a sigmoid value above 0 maps strictly above `lb` |
| Eigengrasp.SquashInside | Hand.py:595 | a value strictly between 0 and 1 maps strictly inside `(lb, ub)` |
| Eigengrasp.SquashUndone | Hand.py:608 | the map is invertible on a non-empty range: `(x − lb)/(ub − lb)` recovers the sigmoid value |
| Eigengrasp.SquashAll | Hand.py:606-608 | elementwise, each output lies strictly inside its range and inverts back to its sigmoid value |
| HandModel.NrDof | Hand.py:576-577 | the dof count is at least 1, exceeds every joint id, and is 1 or one more than some joint's id |
| HandModel.HandLbUb | Hand.py:579-583 | the bounds have one slot per dof; a slot no joint names is 0, and otherwise holds the last such joint's min and max |
| HandModel.Assemble | Hand.py:459-469 | the assembled hand is valid and keeps the palm and the joint-limit flag; contacts are the palm's own points (what `build_contacts` returns), the watertight flag is what `watertight_check` returns, and the link count is the tree size; without an eigengrasp file there is no eigengrasp state and `use_eigen` is off; with one, the stored state is exactly what `read_eigen_grasp` read against the hand's bounds and `use_eigen` is the argument; it fails exactly when the eigengrasp read or the watertight check fails |
| HandModel.AssembleAgainstWholeTree | Hand.py:459-469 | construction fails exactly when the eigengrasp read fails or a link has no mesh; the watertight flag is the last pre-order link's, implied by but not implying every link being watertight; the contacts are a prefix of all end effectors, equal to them exactly when the descendants carry none |
| HandModel.Sigmoids | Hand.py:606-607 | the sigmoid is applied once per entry |
| HandModel.JointVector | Hand.py:585-609 | with eigengrasps the actuation must have two entries and the result is the expansion `dir·c + origin` of the coefficients, squashed into the eigengrasp bounds under joint limits; off that path, under joint limits the actuation must have one entry per dof and each is squashed into its joint's bounds; otherwise it passes through; a mismatch is the only failure |
| HandModel.JointLimitedInside | Hand.py:601-609 | on the joint-limit branch, every joint with a non-empty range gets a value strictly inside it |
| HandModel.EigenCoefficientsInside | Hand.py:588-600 | on the eigengrasp branch with limits, two coefficients always give a joint vector, and it is the expansion of two coefficients, each strictly inside its direction's bounds when those are not a point |
| HandModel.ForwardKinematics | Hand.py:585-645 | on success the frames are the palm's tree posed from the composed root transform at the joint vector's values; with the actuation passed through it succeeds exactly when every joint id indexes the actuation; on the eigen or limit branch with a jointless palm it succeeds when there is more than one dof or no joint, and fails with an index error for a single dof with a joint, where the squeezed joint vector is a scalar |
| HandModel.ForwardKinematicsFingerFrames | Hand.py:222-235 | after hand-level forward kinematics, a jointed link mounted on the palm has the frame `root · offset · DH_1 · DH_2 ...` at the joint vector's clamped, coupled angles |
| HandModel.ForwardKinematicsPlacesEffectors | Hand.py:323-332 | after forward kinematics, every link has a frame, the collected points are pre-order `R·p + t`, and jointless links sit at the root |

## Left out

- Parsing of the hand description, the eigengrasp file and the contact file
  (XML, regex) is not modelled; the model starts from the parsed records.
  The eigengrasp file becomes an `EigenFile` of attribute maps.
- Convex-hull simplification of meshes: a mesh is kept only as its vertex
  list and a watertight flag.
- The root rotation from a quaternion or Euler angles is not modelled; the
  root enters as a translation and a 3x3 rotation, already combined.
- `cos`, `sin` and the sigmoid are parameters. A lemma that needs one of
  their laws states it as a precondition at the points it uses: `cos 0 = 1`
  and `sin 0 = 0`, or angle addition (`Denavit.AddsAngles`).
- Torch batching, autodiff, tensors of size 1 broadcasting in the
  actuation: a length mismatch is modelled as `ArgumentMismatch`.
- The contact-pair format used with `use_contacts` is not modelled:
  end effectors are points, and with `use_contacts` a new link has none.
- Multiple eigengrasp files: only the first is read, as in the loop's
  `break`. An absent eigengrasp directory is `None`. A file with more than
  two directions fails with `EigenCountMismatch`, where the code raises
  `IndexError` part way through.
- The extrinsic-size `assert` and the root handling around it.
- Optimisation, sampling, rendering and the other files in the
  repository are not part of this model.
- Rewrites.ConvertToRevolute: the pre-order joint list is preserved only
  for links with at most two joints, because the code drops any joint
  after the second.
- Rewrites.ConvertToRevolute: no claim that the split keeps the set of
  contact points. The split link keeps its end effectors, and the inserted
  link is created from the same mesh without contacts, so it gets the mesh
  vertices again. Without contacts, a split link's points appear twice,
  once in the first half's frame (`Rewrites.SplitDuplicatesVertices`). The
  model reproduces this.
- Kinematics.Forward: a link with no end effectors returns no points here.
  In the code, `torch.transpose` on the one-dimensional empty tensor at
  Hand.py:261 raises, so the batched pass fails on such a link. Every link
  created with `use_contacts` has none until contacts are added.
  `Kinematics.BatchedAgreesWithPlain` therefore covers trees that the code
  cannot evaluate.
- Rewrites.ConvertToZeroMean: no claim that the frames after re-centring
  equal the frames before under the shifted actuation, because in general
  they do not. The first joint's angle becomes `θ·mul + trans + m·(1 − mul)`
  for mean `m` (`Rewrites.RecenteredAngle`), which differs unless `mul = 1`
  or `m = 0`. A dof id shared by joints with different means cannot be
  shifted consistently either. Nothing in `Hand.py` calls the rewrite but its
  own recursion, so the model records this behaviour rather than a
  correction.
- Eigengrasp.ReadEigenGrasp: soundness is stated per direction, not for
  both coefficients together, because the code does not promise the
  latter (see `Eigengrasp.CombinedBoundsCanLeaveRange`).
- Floating point: the model computes over exact reals, not float64. Divisions
  in the bound derivation are exact rather than rounded. A direction with no
  non-zero entry keeps the bounds `[-DBL_MAX, DBL_MAX]`; with joint limits on
  the eigengrasp path, `ub - lb` then overflows to infinity in the code and the
  joint values become NaN, while the model gives finite reals.
- HandModel.ForwardKinematics: a palm with joints fails with `NoParent`,
  where the code would dereference a missing parent.

## Findings

| source | as written | input that shows it | evidently intended | confidence | as-written member | corrected member |
|---|---|---|---|---|---|---|
| Hand.py:194-202 | `convert_to_zero_mean` updates `transform` but not the cached `transform_torch` (Hand.py:153), so the batched pass keeps the old offset | a one-link hand with joint range `[0, 2]` at dof 0 where `sin 1 ≠ 0`: the plain frame is rotated by 1 rad and the batched one is not | refresh the cached top rows together with the offset | not executed | Rewrites.ZeroMeanAsWrittenDiverges | Rewrites.ZeroMeanKeepsSynced |
| Hand.py:484-498 | each child's result overwrites `is_watertight`, so the answer is the flag of the last link in pre-order | a non-watertight palm with one watertight child is reported watertight | every link watertight (a conjunction) | not executed | Links.WatertightCheckMissesPalm | Links.AllWatertight |
| Hand.py:471-476 | `build_contacts` discards what its recursive calls return, so only the palm's points become contacts | a palm without points and one child with one point yields no contacts | all end effectors of the tree in pre-order | not executed | Links.BuildContactsDropsChildren | Links.AllEffectors |
