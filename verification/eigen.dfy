/**
 Eigengrasp reparameterisation (`Hand.read_eigen_grasp` and the eigengrasp
 branch of `Hand.forward_kinematics`).

 An eigengrasp description gives an origin joint vector and exactly two
 directions in joint space. A hand posture is `dir·c + origin` for a pair of
 coefficients `c`. While reading a direction the reader narrows an interval
 of admissible coefficients: for every joint the direction moves, the
 coefficient must keep that joint inside its range when the other direction
 contributes nothing.
 */
module Eigengrasp {
  import opened Results

  /** The largest finite double, the starting half-width of every coefficient
      interval (`np.finfo(np.float64).max`). */
  const FloatMax: real := 179769313486231570814527423731704356798070567525844996598917476803157260780028538760589558632766878171540458953514382464234321326889464182768467546703537516986049910576551282076245490090389328944075868508455133942304583236903222948165808559332123348274797826204144723168738177180919299881250404026184124858368.0

  datatype Interval = Interval(lo: real, hi: real) {
    predicate Contains(c: real) {
      lo <= c <= hi
    }
  }

  const Unbounded: Interval := Interval(-FloatMax, FloatMax)

  /** Coefficient `c` along entry `v` keeps a joint with origin `o` inside
      `[lb, ub]`. */
  predicate Admits(v: real, o: real, lb: real, ub: real, c: real) {
    lb <= o + v * c <= ub
  }

  function Max(a: real, b: real): real {
    if a >= b then a else b
  }

  function Min(a: real, b: real): real {
    if a <= b then a else b
  }

  lemma DividePositive(v: real, a: real, c: real)
    requires v > 0.0
    ensures c <= a / v <==> v * c <= a
    ensures a / v <= c <==> a <= v * c
  {
    var q := a / v;
    assert q * v == a;
    assert v * c - a == v * (c - q);
  }

  lemma DivideNegative(v: real, a: real, c: real)
    requires v < 0.0
    ensures c <= a / v <==> a <= v * c
    ensures a / v <= c <==> v * c <= a
  {
    var q := a / v;
    assert q * v == a;
    assert v * c - a == v * (c - q);
  }

  /** One entry of a direction narrows the interval; a zero entry leaves it
      as it was. */
  function Tighten(iv: Interval, v: real, o: real, lb: real, ub: real): (r: Interval)
    ensures v == 0.0 ==> r == iv
  {
    if v < 0.0 then Interval(Max(iv.lo, (ub - o) / v), Min(iv.hi, (lb - o) / v))
    else if v > 0.0 then Interval(Max(iv.lo, (lb - o) / v), Min(iv.hi, (ub - o) / v))
    else iv
  }

  /** A non-zero entry narrows the interval to exactly the coefficients that
      keep its joint in range. */
  lemma TightenExact(iv: Interval, v: real, o: real, lb: real, ub: real, c: real)
    ensures Tighten(iv, v, o, lb, ub).Contains(c) <==> iv.Contains(c) && (v != 0.0 ==> Admits(v, o, lb, ub, c))
  {
    if v < 0.0 {
      DivideNegative(v, ub - o, c);
      DivideNegative(v, lb - o, c);
    } else if v > 0.0 {
      DividePositive(v, ub - o, c);
      DividePositive(v, lb - o, c);
    }
  }

  // ---------------------------------------------------------------------------
  // Reading one direction

  /** The `d<k>` attributes of one `DimVals` element, keyed by `k`. */
  type Attributes = map<nat, real>

  /** One entry written into a direction column: joint `dim` gets `value`. */
  datatype Write = Write(dim: nat, value: real)

  /** The entries one `DimVals` element writes, for the joints below `n`, in
      increasing joint order; attributes naming other joints are ignored. */
  function WritesBelow(a: Attributes, n: nat): (ws: seq<Write>)
    ensures forall i | 0 <= i < |ws| :: ws[i].dim < n && ws[i].dim in a && ws[i].value == a[ws[i].dim]
  {
    if n == 0 then [] else WritesBelow(a, n - 1) + (if n - 1 in a then [Write(n - 1, a[n - 1])] else [])
  }

  /** Every attribute naming a joint below `n` is written. */
  lemma {:induction false} WritesBelowComplete(a: Attributes, n: nat, k: nat)
    requires k < n && k in a
    ensures exists i :: 0 <= i < |WritesBelow(a, n)| && WritesBelow(a, n)[i].dim == k
  {
    var ws := WritesBelow(a, n);
    if k == n - 1 {
      assert ws[|ws| - 1].dim == k;
    } else {
      WritesBelowComplete(a, n - 1, k);
      var prev := WritesBelow(a, n - 1);
      var i :| 0 <= i < |prev| && prev[i].dim == k;
      assert ws[i] == prev[i];
    }
  }

  /** The entries a sequence of `DimVals` elements writes, element by element. */
  function Writes(dvs: seq<Attributes>, n: nat): (ws: seq<Write>)
    ensures forall i | 0 <= i < |ws| :: ws[i].dim < n
  {
    if dvs == [] then [] else Writes(dvs[..|dvs| - 1], n) + WritesBelow(dvs[|dvs| - 1], n)
  }

  predicate DimsBelow(ws: seq<Write>, n: nat) {
    forall i | 0 <= i < |ws| :: ws[i].dim < n
  }

  /** `ws[i]` is the last entry written to joint `d`. */
  predicate LastWrite(ws: seq<Write>, d: nat, i: int) {
    && 0 <= i < |ws|
    && ws[i].dim == d
    && forall i' | i < i' < |ws| :: ws[i'].dim != d
  }

  predicate Unwritten(ws: seq<Write>, d: nat) {
    forall i | 0 <= i < |ws| :: ws[i].dim != d
  }

  function Zeros(n: nat): (z: seq<real>)
    ensures |z| == n && forall d | 0 <= d < n :: z[d] == 0.0
  {
    seq(n, d => 0.0)
  }

  /** The direction column after the entries are written in order. */
  function Column(col: seq<real>, ws: seq<Write>): (r: seq<real>)
    requires DimsBelow(ws, |col|)
    ensures |r| == |col|
  {
    if ws == [] then col
    else
      var last := ws[|ws| - 1];
      Column(col, ws[..|ws| - 1])[last.dim := last.value]
  }

  /** Every joint of the column holds its last written value, or its initial
      value when it was never written. */
  lemma {:induction false} ColumnLastWrite(col: seq<real>, ws: seq<Write>, d: nat)
    requires DimsBelow(ws, |col|) && d < |col|
    ensures || (Unwritten(ws, d) && Column(col, ws)[d] == col[d])
            || (exists i :: LastWrite(ws, d, i) && Column(col, ws)[d] == ws[i].value)
    decreases |ws|
  {
    if ws != [] {
      var last := ws[|ws| - 1];
      if last.dim == d {
        assert LastWrite(ws, d, |ws| - 1);
      } else {
        var init := ws[..|ws| - 1];
        ColumnLastWrite(col, init, d);
        assert forall i' | 0 <= i' < |init| :: ws[i'] == init[i'];
        if !Unwritten(init, d) {
          var i :| LastWrite(init, d, i) && Column(col, init)[d] == ws[i].value;
          forall i' | i < i' < |ws|
            ensures ws[i'].dim != d
          {
            if i' < |init| {
              assert ws[i'] == init[i'];
            }
          }
          assert LastWrite(ws, d, i);
        } else {
          assert Unwritten(ws, d);
        }
      }
    }
  }

  /** Every non-zero entry written admits coefficient `c`. */
  predicate AdmitsAll(ws: seq<Write>, origin: seq<real>, lb: seq<real>, ub: seq<real>, c: real)
    requires DimsBelow(ws, |origin|) && |lb| == |origin| && |ub| == |origin|
  {
    forall i | 0 <= i < |ws| && ws[i].value != 0.0 :: Admits(ws[i].value, origin[ws[i].dim], lb[ws[i].dim], ub[ws[i].dim], c)
  }

  /** The coefficient interval after the entries are read in order. */
  function Narrow(iv: Interval, ws: seq<Write>, origin: seq<real>, lb: seq<real>, ub: seq<real>): Interval
    requires DimsBelow(ws, |origin|) && |lb| == |origin| && |ub| == |origin|
  {
    if ws == [] then iv
    else
      var w := ws[|ws| - 1];
      Tighten(Narrow(iv, ws[..|ws| - 1], origin, lb, ub), w.value, origin[w.dim], lb[w.dim], ub[w.dim])
  }

  /** The interval holds exactly the coefficients of the starting interval
      that every non-zero entry admits. */
  lemma {:induction false} NarrowExact(iv: Interval, ws: seq<Write>, origin: seq<real>, lb: seq<real>, ub: seq<real>, c: real)
    requires DimsBelow(ws, |origin|) && |lb| == |origin| && |ub| == |origin|
    ensures Narrow(iv, ws, origin, lb, ub).Contains(c) <==> iv.Contains(c) && AdmitsAll(ws, origin, lb, ub, c)
    decreases |ws|
  {
    if ws != [] {
      var w := ws[|ws| - 1];
      var init := ws[..|ws| - 1];
      NarrowExact(iv, init, origin, lb, ub, c);
      TightenExact(Narrow(iv, init, origin, lb, ub), w.value, origin[w.dim], lb[w.dim], ub[w.dim], c);
      if AdmitsAll(init, origin, lb, ub, c) && (w.value != 0.0 ==> Admits(w.value, origin[w.dim], lb[w.dim], ub[w.dim], c)) {
        forall i | 0 <= i < |ws| && ws[i].value != 0.0
          ensures Admits(ws[i].value, origin[ws[i].dim], lb[ws[i].dim], ub[ws[i].dim], c)
        {
          if i < |ws| - 1 {
            assert ws[i] == init[i];
          }
        }
      }
      if AdmitsAll(ws, origin, lb, ub, c) {
        forall i | 0 <= i < |init| && init[i].value != 0.0
          ensures Admits(init[i].value, origin[init[i].dim], lb[init[i].dim], ub[init[i].dim], c)
        {
          assert init[i] == ws[i];
        }
      }
    }
  }

  /** One direction as read: its column and its coefficient interval. */
  datatype Direction = Direction(column: seq<real>, bounds: Interval)

  function DirectionOf(dvs: seq<Attributes>, origin: seq<real>, lb: seq<real>, ub: seq<real>): Direction
    requires |lb| == |origin| && |ub| == |origin|
  {
    var ws := Writes(dvs, |origin|);
    Direction(Column(Zeros(|origin|), ws), Narrow(Unbounded, ws, origin, lb, ub))
  }

  lemma {:induction false} ColumnAppend(col: seq<real>, ws: seq<Write>, ws': seq<Write>)
    requires DimsBelow(ws, |col|) && DimsBelow(ws', |col|)
    ensures DimsBelow(ws + ws', |col|)
    ensures Column(Column(col, ws), ws') == Column(col, ws + ws')
    decreases |ws'|
  {
    if ws' != [] {
      ColumnAppend(col, ws, ws'[..|ws'| - 1]);
      assert (ws + ws')[..|ws + ws'| - 1] == ws + ws'[..|ws'| - 1];
    } else {
      assert ws + ws' == ws;
    }
  }

  lemma {:induction false} NarrowAppend(iv: Interval, ws: seq<Write>, ws': seq<Write>, origin: seq<real>, lb: seq<real>, ub: seq<real>)
    requires DimsBelow(ws, |origin|) && DimsBelow(ws', |origin|) && |lb| == |origin| && |ub| == |origin|
    ensures DimsBelow(ws + ws', |origin|)
    ensures Narrow(Narrow(iv, ws, origin, lb, ub), ws', origin, lb, ub) == Narrow(iv, ws + ws', origin, lb, ub)
    decreases |ws'|
  {
    if ws' != [] {
      NarrowAppend(iv, ws, ws'[..|ws'| - 1], origin, lb, ub);
      assert (ws + ws')[..|ws + ws'| - 1] == ws + ws'[..|ws'| - 1];
    } else {
      assert ws + ws' == ws;
    }
  }

  /** One step of the reader's inner loop: looking at joint `d` writes its
      attribute into the column and narrows the interval by it when present,
      and changes nothing when absent. */
  lemma DimValsStep(a: Attributes, d: nat, origin: seq<real>, lb: seq<real>, ub: seq<real>, column0: seq<real>, bounds0: Interval)
    requires |lb| == |origin| && |ub| == |origin| && |column0| == |origin| && d < |origin|
    ensures Column(column0, WritesBelow(a, d + 1)) ==
      if d in a then Column(column0, WritesBelow(a, d))[d := a[d]] else Column(column0, WritesBelow(a, d))
    ensures Narrow(bounds0, WritesBelow(a, d + 1), origin, lb, ub) ==
      if d in a then Tighten(Narrow(bounds0, WritesBelow(a, d), origin, lb, ub), a[d], origin[d], lb[d], ub[d])
      else Narrow(bounds0, WritesBelow(a, d), origin, lb, ub)
  {
    var ws := WritesBelow(a, d + 1);
    if d in a {
      assert ws[..|ws| - 1] == WritesBelow(a, d) && ws[|ws| - 1] == Write(d, a[d]);
    } else {
      assert ws == WritesBelow(a, d);
    }
  }

  /** The reader's inner loop over the joints for one `DimVals` element:
      every joint below the joint count whose attribute is present is written
      into the column and narrows the interval. */
  method ReadDimVals(a: Attributes, origin: seq<real>, lb: seq<real>, ub: seq<real>, column0: seq<real>, bounds0: Interval)
      returns (column: seq<real>, bounds: Interval)
    requires |lb| == |origin| && |ub| == |origin| && |column0| == |origin|
    ensures column == Column(column0, WritesBelow(a, |origin|))
    ensures bounds == Narrow(bounds0, WritesBelow(a, |origin|), origin, lb, ub)
  {
    column, bounds := column0, bounds0;
    for d := 0 to |origin|
      invariant column == Column(column0, WritesBelow(a, d))
      invariant bounds == Narrow(bounds0, WritesBelow(a, d), origin, lb, ub)
    {
      DimValsStep(a, d, origin, lb, ub, column0, bounds0);
      if d in a {
        column := column[d := a[d]];
        bounds := Tighten(bounds, a[d], origin[d], lb[d], ub[d]);
      }
    }
  }

  /** The reader's loop over one `EG` element: its `DimVals` elements in
      order, starting from a zero column and the unbounded interval. */
  method ReadDirection(dvs: seq<Attributes>, origin: seq<real>, lb: seq<real>, ub: seq<real>)
      returns (column: seq<real>, bounds: Interval)
    requires |lb| == |origin| && |ub| == |origin|
    ensures Direction(column, bounds) == DirectionOf(dvs, origin, lb, ub)
  {
    var n := |origin|;
    column := Zeros(n);
    bounds := Unbounded;
    for p := 0 to |dvs|
      invariant column == Column(Zeros(n), Writes(dvs[..p], n))
      invariant bounds == Narrow(Unbounded, Writes(dvs[..p], n), origin, lb, ub)
    {
      ghost var before := Writes(dvs[..p], n);
      column, bounds := ReadDimVals(dvs[p], origin, lb, ub, column, bounds);
      ColumnAppend(Zeros(n), before, WritesBelow(dvs[p], n));
      NarrowAppend(Unbounded, before, WritesBelow(dvs[p], n), origin, lb, ub);
      assert dvs[..p + 1][..p] == dvs[..p];
    }
    assert dvs[..|dvs|] == dvs;
  }

  /** Soundness of one direction: every coefficient in its interval keeps
      every joint the direction moves inside that joint's range. */
  lemma DirectionSound(dvs: seq<Attributes>, origin: seq<real>, lb: seq<real>, ub: seq<real>, c: real, d: nat)
    requires |lb| == |origin| && |ub| == |origin|
    requires DirectionOf(dvs, origin, lb, ub).bounds.Contains(c)
    requires d < |origin| && DirectionOf(dvs, origin, lb, ub).column[d] != 0.0
    ensures Admits(DirectionOf(dvs, origin, lb, ub).column[d], origin[d], lb[d], ub[d], c)
  {
    var ws := Writes(dvs, |origin|);
    var col := Column(Zeros(|origin|), ws);
    ColumnLastWrite(Zeros(|origin|), ws, d);
    assert !Unwritten(ws, d);
    var i :| LastWrite(ws, d, i) && col[d] == ws[i].value;
    NarrowExact(Unbounded, ws, origin, lb, ub, c);
    assert AdmitsAll(ws, origin, lb, ub, c);
  }

  /** With a single `DimVals` element, joint `d`'s column entry is its
      attribute, or zero when the attribute is absent. */
  lemma SingleDimValsColumn(a: Attributes, n: nat, d: nat)
    requires d < n
    ensures Column(Zeros(n), Writes([a], n))[d] == if d in a then a[d] else 0.0
  {
    var ws := Writes([a], n);
    assert Writes([a][..0], n) == [];
    assert ws == WritesBelow(a, n);
    ColumnLastWrite(Zeros(n), ws, d);
    if !Unwritten(ws, d) {
      var i :| LastWrite(ws, d, i) && Column(Zeros(n), ws)[d] == ws[i].value;
    } else if d in a {
      WritesBelowComplete(a, n, d);
    }
  }

  /** With a single `DimVals` element the interval is exact: a coefficient
      lies in it if and only if it lies in the starting interval and keeps
      every joint with a non-zero column entry inside its range. */
  lemma SingleDimValsExact(a: Attributes, origin: seq<real>, lb: seq<real>, ub: seq<real>, c: real)
    requires |lb| == |origin| && |ub| == |origin|
    ensures var dir := DirectionOf([a], origin, lb, ub);
            dir.bounds.Contains(c) <==>
              && Unbounded.Contains(c)
              && forall d | 0 <= d < |origin| && dir.column[d] != 0.0 :: Admits(dir.column[d], origin[d], lb[d], ub[d], c)
  {
    var n := |origin|;
    var dir := DirectionOf([a], origin, lb, ub);
    var ws := Writes([a], n);
    var col := dir.column;
    NarrowExact(Unbounded, ws, origin, lb, ub, c);
    if forall d | 0 <= d < n && col[d] != 0.0 :: Admits(col[d], origin[d], lb[d], ub[d], c) {
      assert Writes([a][..0], n) == [];
      assert ws == WritesBelow(a, n);
      forall i | 0 <= i < |ws| && ws[i].value != 0.0
        ensures Admits(ws[i].value, origin[ws[i].dim], lb[ws[i].dim], ub[ws[i].dim], c)
      {
        SingleDimValsColumn(a, n, ws[i].dim);
      }
    }
    if dir.bounds.Contains(c) {
      forall d | 0 <= d < n && col[d] != 0.0
        ensures Admits(col[d], origin[d], lb[d], ub[d], c)
      {
        DirectionSound([a], origin, lb, ub, c, d);
      }
    }
  }

  /** The entries of `ws` that are not zero, in order. */
  function NonZero(ws: seq<Write>): (r: seq<Write>)
    ensures forall i | 0 <= i < |r| :: r[i] in ws && r[i].value != 0.0
  {
    if ws == [] then []
    else NonZero(ws[..|ws| - 1]) + (if ws[|ws| - 1].value == 0.0 then [] else [ws[|ws| - 1]])
  }

  /** Entries that are zero do not narrow the interval: reading only the
      non-zero ones gives the same interval. */
  lemma {:induction false} ZeroEntriesDoNotTighten(iv: Interval, ws: seq<Write>, origin: seq<real>, lb: seq<real>, ub: seq<real>)
    requires DimsBelow(ws, |origin|) && |lb| == |origin| && |ub| == |origin|
    ensures DimsBelow(NonZero(ws), |origin|)
    ensures Narrow(iv, NonZero(ws), origin, lb, ub) == Narrow(iv, ws, origin, lb, ub)
  {
    if ws != [] {
      var w := ws[|ws| - 1];
      var init := ws[..|ws| - 1];
      ZeroEntriesDoNotTighten(iv, init, origin, lb, ub);
      var nz := NonZero(ws);
      if w.value != 0.0 {
        assert nz[..|nz| - 1] == NonZero(init);
      } else {
        assert nz == NonZero(init);
      }
    }
  }

  // ---------------------------------------------------------------------------
  // The eigengrasp description

  /** The parsed eigengrasp file: the `DimVals` elements under `ORIGIN`, and
      for every `EG` element the `DimVals` elements under it. */
  datatype EigenFile = EigenFile(origin: seq<Attributes>, grasps: seq<seq<Attributes>>)

  /** The eigengrasp state of a hand: origin, the `nr_dof × 2` direction
      matrix (row `d` holds joint `d`'s entries), the coefficient bounds per
      direction and the number of directions. */
  datatype Eigen = Eigen(origin: seq<real>, dir: seq<seq<real>>, lb: seq<real>, ub: seq<real>, count: nat)

  predicate WellFormed(eg: Eigen) {
    && eg.count == 2
    && |eg.lb| == 2 && |eg.ub| == 2
    && |eg.dir| == |eg.origin|
    && forall d | 0 <= d < |eg.dir| :: |eg.dir[d]| == 2
  }

  /** Every `DimVals` element names every joint below `n`. */
  predicate Complete(dvs: seq<Attributes>, n: nat) {
    forall i, d: nat | 0 <= i < |dvs| && d < n :: d in dvs[i]
  }

  /** The origin vector: each `DimVals` element must carry every joint's
      attribute (a missing one fails), and the last element read wins; with
      no element the origin stays zero. */
  function ReadOrigin(dvs: seq<Attributes>, n: nat): (r: Result<seq<real>>)
    ensures r.Success? <==> Complete(dvs, n)
    ensures r.Failure? ==> r.error == MissingAttribute
    ensures r.Success? ==> |r.value| == n
    ensures r.Success? && dvs == [] ==> r.value == Zeros(n)
    ensures r.Success? && dvs != [] ==> forall d | 0 <= d < n :: r.value[d] == dvs[|dvs| - 1][d]
  {
    if dvs == [] then Success(Zeros(n))
    else if !(forall d: nat | d < n :: d in dvs[0]) then Failure(MissingAttribute)
    else
      var rest := ReadOrigin(dvs[1..], n);
      assert Complete(dvs, n) <==> Complete(dvs[1..], n) by {
        if Complete(dvs[1..], n) {
          forall i, d: nat | 0 <= i < |dvs| && d < n
            ensures d in dvs[i]
          {
            if i > 0 { assert dvs[i] == dvs[1..][i - 1]; }
          }
        }
      }
      if rest.Failure? then rest
      else if dvs[1..] == [] then Success(seq(n, d requires 0 <= d < n => dvs[0][d]))
      else rest
  }

  /** Every coefficient within direction `k`'s bounds keeps every joint that
      direction moves inside `[lb, ub]`. */
  ghost predicate SoundBounds(eg: Eigen, lb: seq<real>, ub: seq<real>)
    requires WellFormed(eg) && |lb| == |eg.origin| && |ub| == |eg.origin|
  {
    forall k, d, c | 0 <= k < 2 && 0 <= d < |eg.dir| && eg.lb[k] <= c <= eg.ub[k] && eg.dir[d][k] != 0.0 ::
      Admits(eg.dir[d][k], eg.origin[d], lb[d], ub[d], c)
  }

  /** The eigengrasp state built from an origin and two directions read
      against it: direction `k` becomes column `k` of the matrix and the
      `k`-th coefficient bounds. */
  function EigenOf(origin: seq<real>, dirs: seq<Direction>): (eg: Eigen)
    requires |dirs| == 2 && |dirs[0].column| == |origin| && |dirs[1].column| == |origin|
    ensures WellFormed(eg) && eg.origin == origin
    ensures forall k | 0 <= k < 2 ::
      && eg.lb[k] == dirs[k].bounds.lo && eg.ub[k] == dirs[k].bounds.hi
      && forall d | 0 <= d < |origin| :: eg.dir[d][k] == dirs[k].column[d]
  {
    Eigen(origin, seq(|origin|, d requires 0 <= d < |origin| => [dirs[0].column[d], dirs[1].column[d]]),
          [dirs[0].bounds.lo, dirs[1].bounds.lo], [dirs[0].bounds.hi, dirs[1].bounds.hi], 2)
  }

  /** `read_eigen_grasp` on a parsed file, given the hand's joint bounds: the
      origin is read first, then the directions, and a file with other than
      two directions is rejected. */
  function ReadEigenGrasp(f: EigenFile, lb: seq<real>, ub: seq<real>): (r: Result<Eigen>)
    requires |lb| == |ub|
    ensures r.Failure? <==> !Complete(f.origin, |lb|) || |f.grasps| != 2
    ensures r.Failure? && !Complete(f.origin, |lb|) ==> r.error == MissingAttribute
    ensures r.Success? ==>
      && WellFormed(r.value)
      && r.value.origin == ReadOrigin(f.origin, |lb|).value
      && SoundBounds(r.value, lb, ub)
    ensures r.Success? ==>
      forall k | 0 <= k < 2 ::
        var dk := DirectionOf(f.grasps[k], r.value.origin, lb, ub);
        && r.value.lb[k] == dk.bounds.lo
        && r.value.ub[k] == dk.bounds.hi
        && forall d | 0 <= d < |lb| :: r.value.dir[d][k] == dk.column[d]
  {
    var n := |lb|;
    var origin :- ReadOrigin(f.origin, n);
    if |f.grasps| != 2 then Failure(EigenCountMismatch)
    else
      var d0 := DirectionOf(f.grasps[0], origin, lb, ub);
      var d1 := DirectionOf(f.grasps[1], origin, lb, ub);
      var eg := EigenOf(origin, [d0, d1]);
      assert SoundBounds(eg, lb, ub) by {
        forall k, d, c | 0 <= k < 2 && 0 <= d < n && eg.lb[k] <= c <= eg.ub[k] && eg.dir[d][k] != 0.0
          ensures Admits(eg.dir[d][k], eg.origin[d], lb[d], ub[d], c)
        {
          DirectionSound(f.grasps[k], origin, lb, ub, c, d);
        }
      }
      Success(eg)
  }

  // ---------------------------------------------------------------------------
  // From coefficients to joint values

  /** `dir·c + origin`. */
  function Expand(eg: Eigen, c: seq<real>): (dofs: seq<real>)
    requires WellFormed(eg) && |c| == 2
    ensures |dofs| == |eg.origin|
  {
    seq(|eg.origin|, d requires 0 <= d < |eg.origin| => eg.dir[d][0] * c[0] + eg.dir[d][1] * c[1] + eg.origin[d])
  }

  /** Moving along one direction within its bounds, with the other
      coefficient at zero, keeps every joint that direction moves in range. */
  lemma ExpandAlongOneDirection(eg: Eigen, lb: seq<real>, ub: seq<real>, c: seq<real>, k: nat)
    requires WellFormed(eg) && |lb| == |eg.origin| && |ub| == |eg.origin|
    requires SoundBounds(eg, lb, ub)
    requires |c| == 2 && k < 2 && c[1 - k] == 0.0 && eg.lb[k] <= c[k] <= eg.ub[k]
    ensures forall d | 0 <= d < |eg.origin| && eg.dir[d][k] != 0.0 :: lb[d] <= Expand(eg, c)[d] <= ub[d]
  {
    forall d | 0 <= d < |eg.origin| && eg.dir[d][k] != 0.0
      ensures lb[d] <= Expand(eg, c)[d] <= ub[d]
    {
      assert Admits(eg.dir[d][k], eg.origin[d], lb[d], ub[d], c[k]);
      assert Expand(eg, c)[d] == eg.origin[d] + eg.dir[d][k] * c[k];
    }
  }

  lemma UnitWrites(a: Attributes)
    requires a == map[0 := 1.0]
    ensures Writes([a], 1) == [Write(0, 1.0)]
  {
    assert Writes([a][..0], 1) == [];
    assert WritesBelow(a, 0) == [];
  }

  /** A direction whose only entry moves joint 0 by one unit, for a joint
      with origin 0 and range `[-1, 1]`. */
  lemma UnitDirection()
    ensures DirectionOf([map[0 := 1.0]], [0.0], [-1.0], [1.0]) == Direction([1.0], Interval(-1.0, 1.0))
  {
    var a: Attributes := map[0 := 1.0];
    UnitWrites(a);
    var ws := [Write(0, 1.0)];
    assert ws[..0] == [];
    assert Narrow(Unbounded, ws[..0], [0.0], [-1.0], [1.0]) == Unbounded;
    var iv := Narrow(Unbounded, ws, [0.0], [-1.0], [1.0]);
    assert iv == Tighten(Unbounded, 1.0, 0.0, -1.0, 1.0);
    assert iv == Interval(-1.0, 1.0);
    assert Column(Zeros(1), ws) == Zeros(1)[0 := 1.0];
  }

  lemma UnitOrigin(dvs: seq<Attributes>)
    requires dvs == [map[0 := 0.0]]
    ensures ReadOrigin(dvs, 1) == Success([0.0])
  {
    assert forall d: nat | d < 1 :: d in dvs[0];
    assert dvs[1..] == [];
    var o := seq(1, d requires 0 <= d < 1 => dvs[0][d]);
    assert o == [0.0];
  }

  /** The per-direction bounds do not bound the combination: two directions
      that each move joint 0 by one unit both get `[-1, 1]`, yet both
      coefficients at 1 put joint 0 at 2, outside its range `[-1, 1]`. */
  lemma CombinedBoundsCanLeaveRange()
    ensures var f := EigenFile([map[0 := 0.0]], [[map[0 := 1.0]], [map[0 := 1.0]]]);
            var r := ReadEigenGrasp(f, [-1.0], [1.0]);
            && r.Success?
            && r.value.lb == [-1.0, -1.0] && r.value.ub == [1.0, 1.0]
            && Expand(r.value, [1.0, 1.0]) == [2.0]
  {
    UnitDirection();
    var dvs: seq<Attributes> := [map[0 := 0.0]];
    UnitOrigin(dvs);
    var r := ReadEigenGrasp(EigenFile(dvs, [[map[0 := 1.0]], [map[0 := 1.0]]]), [-1.0], [1.0]);
    assert r.value.dir == [[1.0, 1.0]];
  }

  // ---------------------------------------------------------------------------
  // The joint-limit map

  /** `s·(ub − lb) + lb`: a sigmoid value `s` mapped onto a range. */
  function Squash(s: real, lb: real, ub: real): real {
    s * (ub - lb) + lb
  }

  lemma SquashBelow(s: real, lb: real, ub: real)
    requires s < 1.0 && lb < ub
    ensures Squash(s, lb, ub) < ub
  {
    var below, width := 1.0 - s, ub - lb;
    assert below * width > 0.0;
    assert below * width == width - s * width;
    assert Squash(s, lb, ub) == s * width + lb;
  }

  lemma SquashAbove(s: real, lb: real, ub: real)
    requires 0.0 < s && lb < ub
    ensures lb < Squash(s, lb, ub)
  {
    assert s * (ub - lb) > 0.0;
  }

  /** The map lands strictly inside the range when `s` is strictly between 0
      and 1. */
  lemma SquashInside(s: real, lb: real, ub: real)
    requires 0.0 < s < 1.0 && lb < ub
    ensures lb < Squash(s, lb, ub) < ub
  {
    SquashBelow(s, lb, ub);
    SquashAbove(s, lb, ub);
  }

  /** The map is undone by `(r − lb) / (ub − lb)` whenever the range is not a
      single point. */
  lemma SquashUndone(s: real, lb: real, ub: real)
    requires lb != ub
    ensures (Squash(s, lb, ub) - lb) / (ub - lb) == s
  {
    assert Squash(s, lb, ub) - lb == s * (ub - lb);
  }

  /** `Squash` applied entry by entry. */
  function SquashAll(ss: seq<real>, lb: seq<real>, ub: seq<real>): (r: seq<real>)
    requires |lb| == |ss| && |ub| == |ss|
    ensures |r| == |ss|
    ensures forall i | 0 <= i < |ss| && 0.0 < ss[i] < 1.0 && lb[i] < ub[i] :: lb[i] < r[i] < ub[i]
    ensures forall i | 0 <= i < |ss| && lb[i] != ub[i] :: (r[i] - lb[i]) / (ub[i] - lb[i]) == ss[i]
  {
    var r := seq(|ss|, i requires 0 <= i < |ss| => Squash(ss[i], lb[i], ub[i]));
    assert forall i | 0 <= i < |ss| && 0.0 < ss[i] < 1.0 && lb[i] < ub[i] :: lb[i] < r[i] < ub[i] by {
      forall i | 0 <= i < |ss| && 0.0 < ss[i] < 1.0 && lb[i] < ub[i]
        ensures lb[i] < r[i] < ub[i]
      {
        SquashInside(ss[i], lb[i], ub[i]);
      }
    }
    assert forall i | 0 <= i < |ss| && lb[i] != ub[i] :: (r[i] - lb[i]) / (ub[i] - lb[i]) == ss[i] by {
      forall i | 0 <= i < |ss| && lb[i] != ub[i]
        ensures (r[i] - lb[i]) / (ub[i] - lb[i]) == ss[i]
      {
        SquashUndone(ss[i], lb[i], ub[i]);
      }
    }
    r
  }
}
