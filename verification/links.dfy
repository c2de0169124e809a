/**
 The kinematic tree: joint records, links, and the reductions the hand runs
 over a whole subtree (degree-of-freedom count, joint bounds, link count,
 contact collection, the watertightness diagnostic).

 Links are immutable values. The parent back-reference of the source is not
 stored: a link's parent is the link whose `children` hold it.
 */
module Links {
  import opened Algebra
  import opened Results

  /** One joint record `[id, mul, trans, d, r, alpha, min, max]`: the index of
      the actuation entry it reads, the coupling multiplier and angle offset
      applied to it, the DH parameters, and the joint range. */
  datatype Joint = Joint(id: nat, mul: real, trans: real, d: real, r: real, alpha: real, min: real, max: real)

  /** The convex collision mesh of a link: its vertices and whether the mesh
      library reports it closed. The hull computation itself is not modelled. */
  datatype Mesh = Mesh(vertices: seq<Vec3>, watertight: bool)

  /** One rigid link. `offset` is the fixed parent-relative transform used by
      the plain path; `offsetTop` is the copy of its top three rows that the
      batched path reads (cached when the link is created). `effectors` are
      the end-effector points in the link's own frame. A cleared mesh is `None`. */
  datatype Link = Link(
    mesh: Option<Mesh>,
    offset: Mat4,
    offsetTop: RigidPose,
    joints: seq<Joint>,
    effectors: seq<Vec3>,
    children: seq<Link>)

  /** A freshly created link. Without external contacts its end effectors
      default to the mesh vertices; with them it starts with none and the
      contacts are appended afterwards. */
  function NewLink(mesh: Mesh, offset: Mat4, joints: seq<Joint>, useContacts: bool, children: seq<Link>): (l: Link)
    ensures l.offsetTop == TopRows(l.offset)
    ensures useContacts ==> l.effectors == []
    ensures !useContacts ==> l.effectors == mesh.vertices
  {
    Link(Some(mesh), offset, TopRows(offset), joints, if useContacts then [] else mesh.vertices, children)
  }

  // ---------------------------------------------------------------------------
  // Pre-order views of a subtree

  /** The links of a subtree in pre-order: the link, then each child's subtree in turn. */
  function Flatten(l: Link): seq<Link>
    decreases l
  {
    [l] + FlattenAll(l.children)
  }

  function FlattenAll(cs: seq<Link>): seq<Link>
    decreases cs
  {
    if cs == [] then [] else Flatten(cs[0]) + FlattenAll(cs[1..])
  }

  /** The joint records of a subtree in pre-order. */
  function JointsOf(l: Link): seq<Joint>
    decreases l
  {
    l.joints + JointsOfAll(l.children)
  }

  function JointsOfAll(cs: seq<Link>): seq<Joint>
    decreases cs
  {
    if cs == [] then [] else JointsOf(cs[0]) + JointsOfAll(cs[1..])
  }

  /** The end-effector points of a list of links, in list order, in local frames. */
  function EffectorsOfLinks(ls: seq<Link>): seq<Vec3> {
    if ls == [] then [] else ls[0].effectors + EffectorsOfLinks(ls[1..])
  }

  lemma EffectorsOfLinksAppend(xs: seq<Link>, ys: seq<Link>)
    ensures EffectorsOfLinks(xs + ys) == EffectorsOfLinks(xs) + EffectorsOfLinks(ys)
  {
    if xs != [] {
      assert (xs + ys)[0] == xs[0];
      assert (xs + ys)[1..] == xs[1..] + ys;
      EffectorsOfLinksAppend(xs[1..], ys);
    } else {
      assert xs + ys == ys;
    }
  }

  // ---------------------------------------------------------------------------
  // Link count (`Hand.get_link_num`)

  /** The number of links in a subtree, counted as the source does: one for
      the link plus the counts of its children. */
  function LinkCount(l: Link): (n: nat)
    ensures n == |Flatten(l)|
    decreases l
  {
    1 + LinkCountAll(l.children)
  }

  function LinkCountAll(cs: seq<Link>): (n: nat)
    ensures n == |FlattenAll(cs)|
    decreases cs
  {
    if cs == [] then 0 else LinkCount(cs[0]) + LinkCountAll(cs[1..])
  }

  // ---------------------------------------------------------------------------
  // Largest joint id (`Link.max_dof_id`)

  function Max(a: nat, b: nat): nat {
    if a < b then b else a
  }

  /** Running maximum of `acc` and the ids of `js`, in order. */
  function MaxIdFrom(acc: nat, js: seq<Joint>): (r: nat)
    ensures acc <= r
    ensures forall j | j in js :: j.id <= r
    ensures r == acc || exists j | j in js :: j.id == r
    decreases js
  {
    if js == [] then acc else MaxIdFrom(Max(acc, js[0].id), js[1..])
  }

  /** The largest joint id in a subtree, 0 when it has no joints. */
  function MaxDofId(l: Link): (r: nat)
    ensures forall j | j in JointsOf(l) :: j.id <= r
    ensures r == 0 || exists j | j in JointsOf(l) :: j.id == r
    decreases l
  {
    MaxDofIdFrom(MaxIdFrom(0, l.joints), l.children)
  }

  /** Running maximum of `acc` and the children's `MaxDofId`, in order. */
  function MaxDofIdFrom(acc: nat, cs: seq<Link>): (r: nat)
    ensures acc <= r
    ensures forall j | j in JointsOfAll(cs) :: j.id <= r
    ensures r == acc || exists j | j in JointsOfAll(cs) :: j.id == r
    decreases cs
  {
    if cs == [] then acc
    else
      var m := MaxDofId(cs[0]);
      var r := MaxDofIdFrom(Max(acc, m), cs[1..]);
      assert JointsOfAll(cs) == JointsOf(cs[0]) + JointsOfAll(cs[1..]);
      r
  }

  // ---------------------------------------------------------------------------
  // Joint bounds (`Link.lb_ub`)

  /** The lower and upper bound arrays, indexed by joint id. */
  datatype Bounds = Bounds(lb: seq<real>, ub: seq<real>)

  predicate IdsBelow(js: seq<Joint>, n: nat) {
    forall j | j in js :: j.id < n
  }

  /** `i` is the last position in `js` whose joint has id `k`. */
  predicate LastWriter(js: seq<Joint>, k: nat, i: int) {
    && 0 <= i < |js|
    && js[i].id == k
    && forall i' | i < i' < |js| :: js[i'].id != k
  }

  /** No joint in `js` has id `k`. */
  predicate Unbound(js: seq<Joint>, k: nat) {
    forall i | 0 <= i < |js| :: js[i].id != k
  }

  /** Writes the bounds of every joint of `js`, in order, into `b`: the
      loop `lb[dh[0]] = dh[6]; ub[dh[0]] = dh[7]`. */
  function WriteJoints(b: Bounds, js: seq<Joint>): (r: Bounds)
    requires |b.lb| == |b.ub|
    requires IdsBelow(js, |b.lb|)
    ensures |r.lb| == |b.lb| && |r.ub| == |b.ub|
    ensures forall k: nat | k < |b.lb| ::
      || (Unbound(js, k) && r.lb[k] == b.lb[k] && r.ub[k] == b.ub[k])
      || (exists i :: LastWriter(js, k, i) && r.lb[k] == js[i].min && r.ub[k] == js[i].max)
  {
    if js == [] then b
    else
      var last := js[|js| - 1];
      var prev := WriteJoints(b, js[..|js| - 1]);
      var r := Bounds(prev.lb[last.id := last.min], prev.ub[last.id := last.max]);
      assert forall k: nat | k < |b.lb| && k != last.id ::
        || (Unbound(js, k) && r.lb[k] == b.lb[k] && r.ub[k] == b.ub[k])
        || (exists i :: LastWriter(js, k, i) && r.lb[k] == js[i].min && r.ub[k] == js[i].max)
      by {
        forall k: nat | k < |b.lb| && k != last.id
          ensures || (Unbound(js, k) && r.lb[k] == b.lb[k] && r.ub[k] == b.ub[k])
                  || (exists i :: LastWriter(js, k, i) && r.lb[k] == js[i].min && r.ub[k] == js[i].max)
        {
          if !Unbound(js[..|js| - 1], k) {
            var i :| LastWriter(js[..|js| - 1], k, i) && prev.lb[k] == js[i].min && prev.ub[k] == js[i].max;
            assert LastWriter(js, k, i);
          }
        }
      }
      assert LastWriter(js, last.id, |js| - 1);
      r
  }

  lemma WriteJointsAppend(b: Bounds, xs: seq<Joint>, ys: seq<Joint>)
    requires |b.lb| == |b.ub|
    requires IdsBelow(xs, |b.lb|) && IdsBelow(ys, |b.lb|)
    ensures WriteJoints(b, xs + ys) == WriteJoints(WriteJoints(b, xs), ys)
    decreases |ys|
  {
    if ys != [] {
      assert (xs + ys)[..|xs + ys| - 1] == xs + ys[..|ys| - 1];
      WriteJointsAppend(b, xs, ys[..|ys| - 1]);
    } else {
      assert xs + ys == xs;
    }
  }

  /** `Link.lb_ub`: write this link's joints, then recurse into the children in order. */
  function LbUb(l: Link, b: Bounds): (r: Bounds)
    requires |b.lb| == |b.ub|
    requires IdsBelow(JointsOf(l), |b.lb|)
    ensures r == WriteJoints(b, JointsOf(l))
    decreases l
  {
    WriteJointsAppend(b, l.joints, JointsOfAll(l.children));
    LbUbAll(l.children, WriteJoints(b, l.joints))
  }

  function LbUbAll(cs: seq<Link>, b: Bounds): (r: Bounds)
    requires |b.lb| == |b.ub|
    requires IdsBelow(JointsOfAll(cs), |b.lb|)
    ensures r == WriteJoints(b, JointsOfAll(cs))
    decreases cs
  {
    if cs == [] then b
    else
      assert JointsOfAll(cs) == JointsOf(cs[0]) + JointsOfAll(cs[1..]);
      WriteJointsAppend(b, JointsOf(cs[0]), JointsOfAll(cs[1..]));
      LbUbAll(cs[1..], LbUb(cs[0], b))
  }

  // ---------------------------------------------------------------------------
  // Contact collection (`Hand.build_contacts`)

  /** The end-effector points of a subtree in pre-order, in local frames. */
  function AllEffectors(l: Link): (ps: seq<Vec3>)
    ensures ps == EffectorsOfLinks(Flatten(l))
    decreases l
  {
    l.effectors + AllEffectorsOf(l.children)
  }

  function AllEffectorsOf(cs: seq<Link>): (ps: seq<Vec3>)
    ensures ps == EffectorsOfLinks(FlattenAll(cs))
    decreases cs
  {
    if cs == [] then []
    else
      EffectorsOfLinksAppend(Flatten(cs[0]), FlattenAll(cs[1..]));
      AllEffectors(cs[0]) + AllEffectorsOf(cs[1..])
  }

  /** `build_contacts` as written: it recurses into the children but drops
      what they return, so only the given link's own points come back. */
  function BuildContacts(l: Link): (ps: seq<Vec3>)
    ensures ps <= EffectorsOfLinks(Flatten(l))
    ensures ps == EffectorsOfLinks(Flatten(l)) <==> AllEffectorsOf(l.children) == []
  {
    l.effectors
  }

  /** A palm without points of its own but with a child that has one. */
  lemma BuildContactsDropsChildren(p: Vec3, m: Mesh)
    ensures var child := Link(Some(m), Identity4(), TopRows(Identity4()), [], [p], []);
            var palm := Link(Some(m), Identity4(), TopRows(Identity4()), [], [], [child]);
            BuildContacts(palm) == [] && AllEffectors(palm) == [p]
  {
    var child := Link(Some(m), Identity4(), TopRows(Identity4()), [], [p], []);
    var palm := Link(Some(m), Identity4(), TopRows(Identity4()), [], [], [child]);
    assert AllEffectorsOf(palm.children) == AllEffectors(child) + AllEffectorsOf([]);
  }

  // ---------------------------------------------------------------------------
  // Watertightness diagnostic (`Hand.watertight_check`)

  predicate HasMesh(l: Link) {
    l.mesh.Some?
  }

  predicate IsWatertight(l: Link) {
    l.mesh.Some? && l.mesh.value.watertight
  }

  /** Every link of `ls` satisfies `p`. */
  predicate Every(ls: seq<Link>, p: Link -> bool) {
    forall i | 0 <= i < |ls| :: p(ls[i])
  }

  predicate AllHaveMesh(ls: seq<Link>) {
    Every(ls, HasMesh)
  }

  lemma EveryAppend(xs: seq<Link>, ys: seq<Link>, p: Link -> bool)
    ensures Every(xs + ys, p) <==> Every(xs, p) && Every(ys, p)
  {
    if Every(xs, p) && Every(ys, p) {
      forall i | 0 <= i < |xs + ys|
        ensures p((xs + ys)[i])
      {
        if i >= |xs| {
          assert (xs + ys)[i] == ys[i - |xs|];
        } else {
          assert (xs + ys)[i] == xs[i];
        }
      }
    }
    if Every(xs + ys, p) {
      forall i | 0 <= i < |ys|
        ensures p(ys[i])
      {
        assert (xs + ys)[|xs| + i] == ys[i];
      }
      forall i | 0 <= i < |xs|
        ensures p(xs[i])
      {
        assert (xs + ys)[i] == xs[i];
      }
    }
  }

  lemma AllHaveMeshAppend(xs: seq<Link>, ys: seq<Link>)
    ensures AllHaveMesh(xs + ys) <==> AllHaveMesh(xs) && AllHaveMesh(ys)
  {
    EveryAppend(xs, ys, HasMesh);
  }

  /** `watertight_check` as written: each child's result overwrites the
      running flag, so the link's own flag survives only when it has no
      children. Reading the mesh of a link whose mesh was cleared fails. */
  function WatertightCheck(l: Link): Result<bool>
    decreases l
  {
    if l.mesh.None? then Failure(MissingMesh)
    else WatertightFrom(l.mesh.value.watertight, l.children)
  }

  function WatertightFrom(w: bool, cs: seq<Link>): Result<bool>
    decreases cs
  {
    if cs == [] then Success(w)
    else
      match WatertightCheck(cs[0])
      case Failure(e) => Failure(e)
      case Success(w') => WatertightFrom(w', cs[1..])
  }

  /** What the as-written diagnostic reports: failure when any link of the
      subtree has no mesh, otherwise the flag of the LAST link in pre-order
      (the rightmost leaf). */
  lemma {:induction false} WatertightCheckIsLastLink(l: Link)
    ensures WatertightCheck(l) ==
      if AllHaveMesh(Flatten(l)) then Success(Flatten(l)[|Flatten(l)| - 1].mesh.value.watertight)
      else Failure(MissingMesh)
    decreases l
  {
    assert Flatten(l)[0] == l;
    if l.mesh.Some? {
      WatertightFromIsLastLink(l.mesh.value.watertight, l.children);
      AllHaveMeshAppend([l], FlattenAll(l.children));
      assert AllHaveMesh([l]);
    }
  }

  lemma {:induction false} WatertightFromIsLastLink(w: bool, cs: seq<Link>)
    ensures WatertightFrom(w, cs) ==
      if !AllHaveMesh(FlattenAll(cs)) then Failure(MissingMesh)
      else if FlattenAll(cs) == [] then Success(w)
      else Success(FlattenAll(cs)[|FlattenAll(cs)| - 1].mesh.value.watertight)
    decreases cs
  {
    if cs != [] {
      var head := Flatten(cs[0]);
      var tail := FlattenAll(cs[1..]);
      assert FlattenAll(cs) == head + tail;
      AllHaveMeshAppend(head, tail);
      WatertightCheckIsLastLink(cs[0]);
      if AllHaveMesh(head) {
        WatertightFromIsLastLink(head[|head| - 1].mesh.value.watertight, cs[1..]);
        if tail != [] {
          assert (head + tail)[|head + tail| - 1] == tail[|tail| - 1];
        }
      }
    }
  }

  /** The diagnostic the source evidently intends: every mesh of the subtree
      is watertight. Reading a cleared mesh still fails. */
  function AllWatertight(l: Link): (r: Result<bool>)
    ensures r == if AllHaveMesh(Flatten(l)) then Success(Every(Flatten(l), IsWatertight))
                 else Failure(MissingMesh)
    decreases l
  {
    AllHaveMeshAppend([l], FlattenAll(l.children));
    EveryAppend([l], FlattenAll(l.children), IsWatertight);
    assert [l][0] == l;
    assert AllHaveMesh([l]) <==> HasMesh(l) by {
      assert Every([l], HasMesh) <==> HasMesh([l][0]);
    }
    assert Every([l], IsWatertight) <==> IsWatertight([l][0]);
    var rest := AllWatertightOf(l.children);
    if l.mesh.None? then Failure(MissingMesh)
    else if rest.Failure? then rest
    else Success(l.mesh.value.watertight && rest.value)
  }

  function AllWatertightOf(cs: seq<Link>): (r: Result<bool>)
    ensures r == if AllHaveMesh(FlattenAll(cs)) then Success(Every(FlattenAll(cs), IsWatertight))
                 else Failure(MissingMesh)
    decreases cs
  {
    if cs == [] then Success(true)
    else
      var head := Flatten(cs[0]);
      var tail := FlattenAll(cs[1..]);
      AllHaveMeshAppend(head, tail);
      EveryAppend(head, tail, IsWatertight);
      var a := AllWatertight(cs[0]);
      var b := AllWatertightOf(cs[1..]);
      if a.Failure? then a
      else if b.Failure? then b
      else Success(a.value && b.value)
  }

  /** A non-watertight palm with one watertight finger link: the as-written
      check reports success, the intended one does not. */
  lemma WatertightCheckMissesPalm()
    ensures var finger := Link(Some(Mesh([], true)), Identity4(), TopRows(Identity4()), [], [], []);
            var palm := Link(Some(Mesh([], false)), Identity4(), TopRows(Identity4()), [], [], [finger]);
            WatertightCheck(palm) == Success(true) && AllWatertight(palm) == Success(false)
  {
    var finger := Link(Some(Mesh([], true)), Identity4(), TopRows(Identity4()), [], [], []);
    var palm := Link(Some(Mesh([], false)), Identity4(), TopRows(Identity4()), [], [], [finger]);
    assert [finger][1..] == [];
    assert WatertightCheck(finger) == Success(true);
    assert WatertightFrom(false, [finger]) == WatertightFrom(true, []);
    var rest := AllWatertightOf([finger]);
    assert rest == Success(true) by {
      assert AllWatertight(finger) == Success(true);
      assert AllWatertightOf([]) == Success(true);
    }
  }
}
