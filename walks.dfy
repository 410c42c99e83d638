/**
 * What the depth-first walks of the point store compute, stated as folds over
 * the sequence of nodes the walk pops (`VisitAll` of the stack it starts with).
 *
 * The per-leaf draw count is a collaborator of the point store: it receives
 * the leaf, the leaf's draw cursor, the quality and the incremental flag, and
 * says how many points the leaf draws.
 */
module Walks {
  import opened Geometry
  import opened Octree
  import opened Seqs
  import opened Fields

  /** Is node `k` a leaf that a walk with culling test `cull` keeps? */
  predicate KeptLeaf(t: Tree, k: NodeId, cull: Box -> bool)
    requires k < |t.nodes|
  {
    t.nodes[k].Leaf? && !cull(t.nodes[k].bbox)
  }

  /** Sum of the draw counts of the kept leaves among `vs`. */
  ghost function LeafCost(t: Tree, vs: seq<NodeId>, cursor: seq<nat>, q: real, inc: bool,
                          cull: Box -> bool, dc: (Node, nat, real, bool) -> nat): nat
    requires ValidIds(t, vs) && |cursor| == |t.nodes|
  {
    if |vs| == 0 then 0
    else
      (if KeptLeaf(t, vs[0], cull) then dc(t.nodes[vs[0]], cursor[vs[0]], q, inc) else 0)
      + LeafCost(t, vs[1..], cursor, q, inc, cull, dc)
  }

  /** The cost estimate of the whole tree at quality `q`. */
  ghost function Cost(t: Tree, cursor: seq<nat>, q: real, inc: bool,
                      cull: Box -> bool, dc: (Node, nat, real, bool) -> nat): nat
    requires Ordered(t) && |t.nodes| > 0 && |cursor| == |t.nodes|
  {
    LeafCost(t, VisitAll(t, [Root], cull), cursor, q, inc, cull, dc)
  }

  /** A draw count that never falls as the quality rises. */
  ghost predicate MonotoneInQuality(dc: (Node, nat, real, bool) -> nat)
  {
    forall n, c, q1, q2, inc :: q1 <= q2 ==> dc(n, c, q1, inc) <= dc(n, c, q2, inc)
  }

  /** With such a draw count, a higher quality never gives a smaller estimate. */
  lemma {:induction false} LeafCostMonotone(t: Tree, vs: seq<NodeId>, cursor: seq<nat>, q1: real, q2: real,
                                             inc: bool, cull: Box -> bool, dc: (Node, nat, real, bool) -> nat)
    requires ValidIds(t, vs) && |cursor| == |t.nodes|
    requires MonotoneInQuality(dc) && q1 <= q2
    ensures LeafCost(t, vs, cursor, q1, inc, cull, dc) <= LeafCost(t, vs, cursor, q2, inc, cull, dc)
  {
    if |vs| > 0 {
      LeafCostMonotone(t, vs[1..], cursor, q1, q2, inc, cull, dc);
    }
  }

  /** The estimate depends only on the cursors of the nodes the walk pops. */
  lemma {:induction false} LeafCostFrame(t: Tree, vs: seq<NodeId>, c1: seq<nat>, c2: seq<nat>, q: real, inc: bool,
                                          cull: Box -> bool, dc: (Node, nat, real, bool) -> nat)
    requires ValidIds(t, vs) && |c1| == |t.nodes| && |c2| == |t.nodes|
    requires forall i :: 0 <= i < |vs| ==> c1[vs[i]] == c2[vs[i]]
    ensures LeafCost(t, vs, c1, q, inc, cull, dc) == LeafCost(t, vs, c2, q, inc, cull, dc)
  {
    if |vs| > 0 {
      assert c1[vs[0]] == c2[vs[0]];
      forall i | 0 <= i < |vs[1..]| ensures c1[vs[1..][i]] == c2[vs[1..][i]] {
        assert vs[1..][i] == vs[i + 1];
      }
      LeafCostFrame(t, vs[1..], c1, c2, q, inc, cull, dc);
    }
  }

  /** The cost of a walk that pops `k` first: the draw count of `k`, when a kept leaf, plus the rest. */
  lemma LeafCostCons(t: Tree, k: NodeId, tail: seq<NodeId>, cursor: seq<nat>, inc: bool,
                     cull: Box -> bool, dc: (Node, nat, real, bool) -> nat)
    requires k < |t.nodes| && ValidIds(t, tail) && |cursor| == |t.nodes|
    ensures ValidIds(t, [k] + tail)
    ensures forall q {:trigger LeafCost(t, [k] + tail, cursor, q, inc, cull, dc)} ::
      LeafCost(t, [k] + tail, cursor, q, inc, cull, dc) ==
        (if KeptLeaf(t, k, cull) then dc(t.nodes[k], cursor[k], q, inc) else 0)
        + LeafCost(t, tail, cursor, q, inc, cull, dc)
  {
    assert ([k] + tail)[1..] == tail;
  }

  /** Adds the draw count of one leaf at each of the first `numEstimates` qualities. */
  method AddLeafCounts(drawCounts: array<nat>, numEstimates: int, leaf: Node, c: nat, qualities: seq<real>,
                       inc: bool, dc: (Node, nat, real, bool) -> nat)
    requires numEstimates <= |qualities| && numEstimates <= drawCounts.Length
    modifies drawCounts
    ensures forall j :: 0 <= j < drawCounts.Length ==>
      drawCounts[j] == old(drawCounts[j]) + (if j < numEstimates then dc(leaf, c, qualities[j], inc) else 0)
  {
    var i := 0;
    while i < numEstimates
      invariant 0 <= i <= (if numEstimates < 0 then 0 else numEstimates)
      invariant forall j :: 0 <= j < drawCounts.Length ==>
        drawCounts[j] == old(drawCounts[j]) + (if j < i then dc(leaf, c, qualities[j], inc) else 0)
    {
      drawCounts[i] := drawCounts[i] + dc(leaf, c, qualities[i], inc);
      i := i + 1;
    }
  }

  /**
   * The cost walk: pops the stack, skips culled nodes, pushes the children of
   * internal nodes and adds the draw counts of each remaining leaf. Entry `i`
   * of `drawCounts` grows by the cost estimate at quality `qualities[i]`.
   */
  method EstimateWalk(t: Tree, cursor: seq<nat>, cull: Box -> bool, inc: bool, qualities: seq<real>,
                      drawCounts: array<nat>, numEstimates: int, dc: (Node, nat, real, bool) -> nat)
    requires Ordered(t) && |t.nodes| > 0 && |cursor| == |t.nodes|
    requires numEstimates <= |qualities| && numEstimates <= drawCounts.Length
    modifies drawCounts
    ensures forall i :: 0 <= i < drawCounts.Length ==>
      drawCounts[i] == old(drawCounts[i]) + (if i < numEstimates then Cost(t, cursor, qualities[i], inc, cull, dc) else 0)
  {
    RootStack(t, cull);
    var stack: seq<NodeId> := [Root];
    while stack != []
      invariant ValidIds(t, stack)
      invariant forall i :: 0 <= i < drawCounts.Length ==>
        drawCounts[i] + (if i < numEstimates then LeafCost(t, VisitAll(t, stack, cull), cursor, qualities[i], inc, cull, dc) else 0)
        == old(drawCounts[i]) + (if i < numEstimates then Cost(t, cursor, qualities[i], inc, cull, dc) else 0)
      decreases |VisitAll(t, stack, cull)|
    {
      var k := stack[|stack| - 1];
      var rest := stack[..|stack| - 1];
      assert stack == rest + [k];
      PopWalk(t, rest, k, cull);
      LeafCostCons(t, k, VisitAll(t, Pushed(t, rest, k, cull), cull), cursor, inc, cull, dc);
      if cull(t.nodes[k].bbox) {
        stack := rest;
      } else if t.nodes[k].Internal? {
        stack := rest + t.nodes[k].children;
      } else {
        stack := rest;
        AddLeafCounts(drawCounts, numEstimates, t.nodes[k], cursor[k], qualities, inc, dc);
      }
    }
  }

  // ---------------------------------------------------------------------------
  // Classification filter

  /** The class of a point: the first component of its classification element. */
  function ClassOf(e: Elem): real
    requires |e| >= 1
  {
    e[0]
  }

  /** The indices in [b, e), ascending, whose class equals `target`. */
  function Matches(cls: seq<Elem>, b: nat, e: nat, target: Byte): (r: seq<nat>)
    requires e <= |cls| && forall i :: b <= i < e ==> |cls[i]| >= 1
    decreases e
  {
    if e <= b then []
    else Matches(cls, b, e - 1, target) + (if ClassOf(cls[e - 1]) == target as real then [e - 1] else [])
  }

  /** A leaf's matches are exactly the indices of its range in the class, each below `e`, in ascending order. */
  lemma {:induction false} MatchesExact(cls: seq<Elem>, b: nat, e: nat, target: Byte)
    requires e <= |cls| && forall i :: b <= i < e ==> |cls[i]| >= 1
    ensures var r := Matches(cls, b, e, target);
      && (forall x :: x in r <==> b <= x < e && ClassOf(cls[x]) == target as real)
      && (forall i, j :: 0 <= i < j < |r| ==> r[i] < r[j])
  {
    MatchesMember(cls, b, e, target);
    MatchesAscending(cls, b, e, target);
  }

  lemma {:induction false} MatchesMember(cls: seq<Elem>, b: nat, e: nat, target: Byte)
    requires e <= |cls| && forall i :: b <= i < e ==> |cls[i]| >= 1
    ensures forall x :: x in Matches(cls, b, e, target) <==> b <= x < e && ClassOf(cls[x]) == target as real
    decreases e
  {
    if e > b {
      MatchesMember(cls, b, e - 1, target);
      var r0 := Matches(cls, b, e - 1, target);
      var last := if ClassOf(cls[e - 1]) == target as real then [e - 1] else [];
      assert Matches(cls, b, e, target) == r0 + last;
      forall x ensures x in r0 + last <==> b <= x < e && ClassOf(cls[x]) == target as real {
        assert x in r0 + last <==> x in r0 || x in last;
        if x == e - 1 { assert x in last <==> ClassOf(cls[x]) == target as real; }
      }
    }
  }

  ghost predicate Ascending(s: seq<nat>)
  {
    forall i, j :: 0 <= i < j < |s| ==> s[i] < s[j]
  }

  lemma {:induction false} MatchesAscending(cls: seq<Elem>, b: nat, e: nat, target: Byte)
    requires e <= |cls| && forall i :: b <= i < e ==> |cls[i]| >= 1
    ensures Ascending(Matches(cls, b, e, target))
    decreases e
  {
    if e > b {
      MatchesAscending(cls, b, e - 1, target);
      MatchesMember(cls, b, e - 1, target);
      var r0 := Matches(cls, b, e - 1, target);
      var last := if ClassOf(cls[e - 1]) == target as real then [e - 1] else [];
      var r := r0 + last;
      assert r == Matches(cls, b, e, target);
      forall i | 0 <= i < |r0| ensures r0[i] < e - 1 { assert r0[i] in r0; }
      forall i, j | 0 <= i < j < |r| ensures r[i] < r[j] {
        if j >= |r0| {
          assert r[j] == e - 1 && r[i] == r0[i];
        } else {
          assert r[i] == r0[i] && r[j] == r0[j];
        }
      }
    }
  }

  /** Every leaf range lies inside a class column whose elements all have a component. */
  ghost predicate ClassReadable(t: Tree, cls: seq<Elem>)
  {
    && RangesWithin(t, |cls|)
    && forall i :: 0 <= i < |cls| ==> |cls[i]| >= 1
  }

  /** The matching indices of node `k`: those of its range when it is a leaf. */
  function NodeMatches(t: Tree, k: NodeId, cls: seq<Elem>, target: Byte): seq<nat>
    requires k < |t.nodes| && ClassReadable(t, cls)
  {
    if t.nodes[k].Leaf? then Matches(cls, t.nodes[k].beginIndex, t.nodes[k].endIndex, target) else []
  }

  /** The matching indices of the leaves among `vs`, leaf after leaf in walk order. */
  ghost function ClassMatches(t: Tree, vs: seq<NodeId>, cls: seq<Elem>, target: Byte): seq<nat>
    requires ValidIds(t, vs) && ClassReadable(t, cls)
  {
    if |vs| == 0 then []
    else
      NodeMatches(t, vs[0], cls, target) + ClassMatches(t, vs[1..], cls, target)
  }

  /** The result holds exactly the points of those leaves that are in the class. */
  lemma {:induction false} ClassMatchesMember(t: Tree, vs: seq<NodeId>, cls: seq<Elem>, target: Byte, x: nat)
    requires ValidIds(t, vs) && ClassReadable(t, cls)
    ensures x in ClassMatches(t, vs, cls, target) <==>
      x in LeafPoints(t, vs) && x < |cls| && ClassOf(cls[x]) == target as real
  {
    if |vs| > 0 {
      ClassMatchesMember(t, vs[1..], cls, target, x);
      var k := vs[0];
      if t.nodes[k].Leaf? {
        MatchesExact(cls, t.nodes[k].beginIndex, t.nodes[k].endIndex, target);
      }
    }
  }

  /**
   * Over a well-formed tree of `|cls|` points, the whole walk returns exactly
   * the stored points whose class is `target`.
   */
  lemma ClassWalkExact(t: Tree, cls: seq<Elem>, target: Byte, x: nat)
    requires WellFormed(t, |cls|) && ClassReadable(t, cls)
    ensures ValidIds(t, [Root])
    ensures x in ClassMatches(t, VisitAll(t, [Root], NoCull), cls, target) <==>
      x < |cls| && ClassOf(cls[x]) == target as real
  {
    assert VisitAll(t, [Root], NoCull) == Visit(t, Root, NoCull) by {
      assert [Root][..0] == [];
    }
    ClassMatchesMember(t, VisitAll(t, [Root], NoCull), cls, target, x);
  }

  /** A point returned by the classification query: its world position and storage index. */
  datatype ClassifiedPoint = ClassifiedPoint(position: Vec3, index: nat)

  /** The world position of a stored position element. */
  function StoredPosition(e: Elem, offset: Vec3): (v: Vec3)
    requires |e| >= 3
    ensures Sub(v, offset) == Vec3(e[0], e[1], e[2])
  {
    Add(Vec3(e[0], e[1], e[2]), offset)
  }

  /** The matches of a walk that pops `k` first: those of `k`, then those of the rest. */
  lemma ClassMatchesCons(t: Tree, k: NodeId, tail: seq<NodeId>, cls: seq<Elem>, target: Byte)
    requires k < |t.nodes| && ValidIds(t, tail) && ClassReadable(t, cls)
    ensures ValidIds(t, [k] + tail)
    ensures ClassMatches(t, [k] + tail, cls, target) == NodeMatches(t, k, cls, target) + ClassMatches(t, tail, cls, target)
  {
    assert ([k] + tail)[1..] == tail;
  }

  /** The storage indices of the reported points, in order. */
  function Indices(r: seq<ClassifiedPoint>): seq<nat>
  {
    if r == [] then [] else [r[0].index] + Indices(r[1..])
  }

  lemma {:induction false} IndicesAppend(r1: seq<ClassifiedPoint>, r2: seq<ClassifiedPoint>)
    ensures Indices(r1 + r2) == Indices(r1) + Indices(r2)
  {
    if r1 != [] {
      assert (r1 + r2)[1..] == r1[1..] + r2;
      IndicesAppend(r1[1..], r2);
    } else {
      assert r1 + r2 == r2;
    }
  }

  /** Every reported point is a stored point, at its world position. */
  ghost predicate Located(r: seq<ClassifiedPoint>, pos: seq<Elem>, offset: Vec3)
  {
    forall i :: 0 <= i < |r| ==>
      r[i].index < |pos| && |pos[r[i].index]| >= 3 && r[i].position == StoredPosition(pos[r[i].index], offset)
  }

  /** The point reported for storage index `idx`. */
  function PointAt(pos: seq<Elem>, offset: Vec3, idx: nat): ClassifiedPoint
    requires idx < |pos| && |pos[idx]| >= 3
  {
    ClassifiedPoint(StoredPosition(pos[idx], offset), idx)
  }

  /** `r` reports the matches of [b, idx), each at its world position. */
  ghost predicate ScannedTo(cls: seq<Elem>, pos: seq<Elem>, offset: Vec3, b: nat, idx: nat, target: Byte, r: seq<ClassifiedPoint>)
    requires idx <= |cls| && forall i :: b <= i < idx ==> |cls[i]| >= 1
  {
    Indices(r) == Matches(cls, b, idx, target) && Located(r, pos, offset)
  }

  /** One more index of a leaf range: the scan so far is extended by it exactly when it matches. */
  method ScanIndex(cls: seq<Elem>, pos: seq<Elem>, offset: Vec3, b: nat, idx: nat, target: Byte, r: seq<ClassifiedPoint>)
    returns (r': seq<ClassifiedPoint>)
    requires b <= idx < |cls| && forall i :: b <= i <= idx ==> |cls[i]| >= 1
    requires |pos| == |cls| && |pos[idx]| >= 3
    requires ScannedTo(cls, pos, offset, b, idx, target, r)
    ensures ScannedTo(cls, pos, offset, b, idx + 1, target, r')
  {
    r' := r;
    if ClassOf(cls[idx]) == target as real {
      var point := PointAt(pos, offset, idx);
      IndicesAppend(r, [point]);
      assert Indices([point]) == [idx];
      LocatedAppend(r, [point], pos, offset);
      r' := r + [point];
    }
  }

  lemma LocatedAppend(r1: seq<ClassifiedPoint>, r2: seq<ClassifiedPoint>, pos: seq<Elem>, offset: Vec3)
    requires Located(r1, pos, offset) && Located(r2, pos, offset)
    ensures Located(r1 + r2, pos, offset)
  {
    forall i | 0 <= i < |r1 + r2|
      ensures (r1 + r2)[i].index < |pos| && |pos[(r1 + r2)[i].index]| >= 3
      ensures (r1 + r2)[i].position == StoredPosition(pos[(r1 + r2)[i].index], offset)
    {
      if i >= |r1| { assert (r1 + r2)[i] == r2[i - |r1|]; }
    }
  }

  /** The scan of one leaf range [b, e): every index in it whose class is `target`, ascending. */
  method ScanLeaf(cls: seq<Elem>, pos: seq<Elem>, offset: Vec3, b: nat, e: nat, target: Byte)
    returns (r: seq<ClassifiedPoint>)
    requires b <= e <= |cls| && forall i :: b <= i < e ==> |cls[i]| >= 1
    requires |pos| == |cls| && forall i :: 0 <= i < |pos| ==> |pos[i]| >= 3
    ensures Indices(r) == Matches(cls, b, e, target)
    ensures Located(r, pos, offset)
  {
    r := [];
    var idx := b;
    while idx < e
      invariant b <= idx <= e
      invariant ScannedTo(cls, pos, offset, b, idx, target, r)
    {
      r := ScanIndex(cls, pos, offset, b, idx, target, r);
      idx := idx + 1;
    }
  }

  /** The matches of one popped node: the scan of its range when it is a leaf, nothing otherwise. */
  method ClassNode(t: Tree, k: NodeId, cls: seq<Elem>, pos: seq<Elem>, offset: Vec3, target: Byte)
    returns (r: seq<ClassifiedPoint>)
    requires k < |t.nodes| && ClassReadable(t, cls)
    requires |pos| == |cls| && forall i :: 0 <= i < |pos| ==> |pos[i]| >= 3
    ensures Indices(r) == NodeMatches(t, k, cls, target)
    ensures Located(r, pos, offset)
  {
    r := [];
    if t.nodes[k].Leaf? {
      r := ScanLeaf(cls, pos, offset, t.nodes[k].beginIndex, t.nodes[k].endIndex, target);
    }
  }

  /**
   * The classification query's walk: pops the stack, pushes the children of
   * internal nodes and, in each leaf, returns every point whose class equals
   * `target` with its world position, leaf after leaf in walk order.
   */
  method ClassWalk(t: Tree, cls: seq<Elem>, pos: seq<Elem>, offset: Vec3, target: Byte)
    returns (r: seq<ClassifiedPoint>)
    requires WellFormed(t, |cls|) && ClassReadable(t, cls)
    requires |pos| == |cls| && forall i :: 0 <= i < |pos| ==> |pos[i]| >= 3
    ensures Indices(r) == ClassMatches(t, VisitAll(t, [Root], NoCull), cls, target)
    ensures Located(r, pos, offset)
  {
    RootStack(t, NoCull);
    ghost var goal := ClassMatches(t, VisitAll(t, [Root], NoCull), cls, target);
    r := [];
    var stack: seq<NodeId> := [Root];
    while stack != []
      invariant ValidIds(t, stack)
      invariant Indices(r) + ClassMatches(t, VisitAll(t, stack, NoCull), cls, target) == goal
      invariant Located(r, pos, offset)
      decreases |VisitAll(t, stack, NoCull)|
    {
      var k := stack[|stack| - 1];
      var rest := stack[..|stack| - 1];
      assert stack == rest + [k];
      PopWalk(t, rest, k, NoCull);
      ClassMatchesCons(t, k, VisitAll(t, Pushed(t, rest, k, NoCull), NoCull), cls, target);
      ghost var tail := ClassMatches(t, VisitAll(t, Pushed(t, rest, k, NoCull), NoCull), cls, target);
      stack := Pushed(t, rest, k, NoCull);
      var r' := ClassNode(t, k, cls, pos, offset, target);
      IndicesAppend(r, r');
      LocatedAppend(r, r', pos, offset);
      ConcatAssoc(Indices(r), Indices(r'), tail);
      r := r + r';
    }
  }

  // ---------------------------------------------------------------------------
  // Draw cursors

  /** The cursor a kept leaf starts from: its own when incremental, its range start otherwise. */
  function StartCursor(leaf: Node, c: nat, inc: bool): nat
    requires leaf.Leaf?
  {
    if inc then c else leaf.beginIndex
  }

  /**
   * The cursor after a kept leaf is drawn: advanced by the number drawn,
   * unless nothing is drawn or the store has no fields to upload.
   */
  function NextCursor(leaf: Node, c: nat, q: real, inc: bool, dc: (Node, nat, real, bool) -> nat,
                      hasFields: bool): (r: nat)
    requires leaf.Leaf?
    ensures r == StartCursor(leaf, c, inc) ||
            r == StartCursor(leaf, c, inc) + dc(leaf, StartCursor(leaf, c, inc), q, inc)
    ensures hasFields ==> r == StartCursor(leaf, c, inc) + dc(leaf, StartCursor(leaf, c, inc), q, inc)
  {
    var c0 := StartCursor(leaf, c, inc);
    var n := dc(leaf, c0, q, inc);
    if n == 0 || !hasFields then c0 else c0 + n
  }

  /** Drawing node `k` alone: the new cursors and the number of points drawn (none unless a kept leaf). */
  function DrawStep(t: Tree, k: NodeId, cursor: seq<nat>, q: real, inc: bool, cull: Box -> bool,
                    dc: (Node, nat, real, bool) -> nat, hasFields: bool): (r: (seq<nat>, nat))
    requires k < |t.nodes| && |cursor| == |t.nodes|
    ensures |r.0| == |cursor|
  {
    if KeptLeaf(t, k, cull) then
      (cursor[k := NextCursor(t.nodes[k], cursor[k], q, inc, dc, hasFields)],
       dc(t.nodes[k], StartCursor(t.nodes[k], cursor[k], inc), q, inc))
    else (cursor, 0)
  }

  /** The cursors after drawing the nodes `vs` in turn, and the number of points drawn. */
  ghost function DrawWalk(t: Tree, vs: seq<NodeId>, cursor: seq<nat>, q: real, inc: bool, cull: Box -> bool,
                          dc: (Node, nat, real, bool) -> nat, hasFields: bool): (r: (seq<nat>, nat))
    requires ValidIds(t, vs) && |cursor| == |t.nodes|
    ensures |r.0| == |cursor|
  {
    if |vs| == 0 then (cursor, 0)
    else
      var s := DrawStep(t, vs[0], cursor, q, inc, cull, dc, hasFields);
      var rest := DrawWalk(t, vs[1..], s.0, q, inc, cull, dc, hasFields);
      (rest.0, s.1 + rest.1)
  }

  /**
   * In a walk that pops no node twice, a kept leaf ends with the cursor of one
   * draw step from its old cursor; every other node keeps its cursor.
   */
  lemma {:induction false} DrawWalkCursorAt(t: Tree, vs: seq<NodeId>, cursor: seq<nat>, q: real, inc: bool,
                                             cull: Box -> bool, dc: (Node, nat, real, bool) -> nat,
                                             hasFields: bool, k: NodeId)
    requires ValidIds(t, vs) && |cursor| == |t.nodes| && Distinct(vs) && k < |t.nodes|
    ensures DrawWalk(t, vs, cursor, q, inc, cull, dc, hasFields).0[k] ==
      if k in vs && KeptLeaf(t, k, cull) then NextCursor(t.nodes[k], cursor[k], q, inc, dc, hasFields)
      else cursor[k]
  {
    if |vs| > 0 {
      var h := vs[0];
      assert k in vs[1..] ==> k != h by {
        if k in vs[1..] {
          var i :| 0 <= i < |vs[1..]| && vs[1..][i] == k;
          assert vs[i + 1] == k;
        }
      }
      assert k in vs <==> k == h || k in vs[1..] by {
        if k in vs && k != h {
          var i :| 0 <= i < |vs| && vs[i] == k;
          assert vs[1..][i - 1] == k;
        }
      }
      var c' := if KeptLeaf(t, h, cull) then cursor[h := NextCursor(t.nodes[h], cursor[h], q, inc, dc, hasFields)]
                else cursor;
      DrawWalkCursorAt(t, vs[1..], c', q, inc, cull, dc, hasFields, k);
    }
  }

  /**
   * In an incremental walk that pops no node twice, the number drawn equals
   * the cost estimate for the same cursors and quality.
   */
  lemma {:induction false} DrawTotalIsCost(t: Tree, vs: seq<NodeId>, cursor: seq<nat>, q: real,
                                            cull: Box -> bool, dc: (Node, nat, real, bool) -> nat, hasFields: bool)
    requires ValidIds(t, vs) && |cursor| == |t.nodes| && Distinct(vs)
    ensures DrawWalk(t, vs, cursor, q, true, cull, dc, hasFields).1 == LeafCost(t, vs, cursor, q, true, cull, dc)
  {
    if |vs| > 0 {
      var h := vs[0];
      var c' := if KeptLeaf(t, h, cull) then cursor[h := NextCursor(t.nodes[h], cursor[h], q, true, dc, hasFields)]
                else cursor;
      DrawTotalIsCost(t, vs[1..], c', q, cull, dc, hasFields);
      forall i | 0 <= i < |vs[1..]| ensures c'[vs[1..][i]] == cursor[vs[1..][i]] {
        assert vs[1..][i] == vs[i + 1];
      }
      LeafCostFrame(t, vs[1..], c', cursor, q, true, cull, dc);
    }
  }

  /**
   * Drawing from the root of a well-formed tree: every kept leaf of the walk
   * ends one draw step past its old cursor, every other node keeps its
   * cursor, and an incremental draw draws exactly the walk's cost estimate.
   */
  lemma RootDraw(t: Tree, n: nat, cursor: seq<nat>, q: real, inc: bool, cull: Box -> bool,
                 dc: (Node, nat, real, bool) -> nat, hasFields: bool)
    requires WellFormed(t, n) && |cursor| == |t.nodes|
    ensures ValidIds(t, [Root])
    ensures var vs := VisitAll(t, [Root], cull);
      var r := DrawWalk(t, vs, cursor, q, inc, cull, dc, hasFields);
      && (forall k :: 0 <= k < |t.nodes| ==>
            r.0[k] == if k in vs && KeptLeaf(t, k, cull) then NextCursor(t.nodes[k], cursor[k], q, inc, dc, hasFields)
                      else cursor[k])
      && (inc ==> r.1 == Cost(t, cursor, q, true, cull, dc))
  {
    RootWalkDistinct(t, n, cull);
    var vs := VisitAll(t, [Root], cull);
    forall k | 0 <= k < |t.nodes|
      ensures DrawWalk(t, vs, cursor, q, inc, cull, dc, hasFields).0[k] ==
        if k in vs && KeptLeaf(t, k, cull) then NextCursor(t.nodes[k], cursor[k], q, inc, dc, hasFields) else cursor[k]
    {
      DrawWalkCursorAt(t, vs, cursor, q, inc, cull, dc, hasFields, k);
    }
    if inc {
      DrawTotalIsCost(t, vs, cursor, q, cull, dc, hasFields);
    }
  }

  /** A walk that pops `k` first draws `k` and then the rest from the new cursors. */
  lemma DrawWalkCons(t: Tree, k: NodeId, tail: seq<NodeId>, cursor: seq<nat>, q: real, inc: bool,
                     cull: Box -> bool, dc: (Node, nat, real, bool) -> nat, hasFields: bool)
    requires k < |t.nodes| && ValidIds(t, tail) && |cursor| == |t.nodes|
    ensures ValidIds(t, [k] + tail)
    ensures DrawWalk(t, [k] + tail, cursor, q, inc, cull, dc, hasFields) ==
      var s := DrawStep(t, k, cursor, q, inc, cull, dc, hasFields);
      var r := DrawWalk(t, tail, s.0, q, inc, cull, dc, hasFields);
      (r.0, s.1 + r.1)
  {
    assert ([k] + tail)[1..] == tail;
  }

  /**
   * Draws popped node `k` unless it is culled or internal: the cursor is reset
   * to the range start when not incremental, then advanced past what was drawn.
   */
  method DrawNode(t: Tree, k: NodeId, c: seq<nat>, q: real, inc: bool, cull: Box -> bool,
                  dc: (Node, nat, real, bool) -> nat, hasFields: bool) returns (c': seq<nat>, n: nat)
    requires k < |t.nodes| && |c| == |t.nodes|
    ensures (c', n) == DrawStep(t, k, c, q, inc, cull, dc, hasFields)
  {
    c', n := c, 0;
    if !cull(t.nodes[k].bbox) && t.nodes[k].Leaf? {
      var start := if inc then c[k] else t.nodes[k].beginIndex;
      n := dc(t.nodes[k], start, q, inc);
      c' := c[k := if n != 0 && hasFields then start + n else start];
    }
  }

  /**
   * The draw walk: pops the stack, skips culled nodes, pushes the children of
   * internal nodes and draws each remaining leaf from its cursor (its range
   * start when not incremental), advancing the cursor by the number drawn
   * when points were drawn and there are fields to upload.
   */
  method DrawLoop(t: Tree, cursor: seq<nat>, q: real, inc: bool, cull: Box -> bool,
                  dc: (Node, nat, real, bool) -> nat, hasFields: bool)
    returns (c: seq<nat>, total: nat)
    requires Ordered(t) && |t.nodes| > 0 && |cursor| == |t.nodes|
    ensures ValidIds(t, [Root])
    ensures (c, total) == DrawWalk(t, VisitAll(t, [Root], cull), cursor, q, inc, cull, dc, hasFields)
  {
    RootStack(t, cull);
    ghost var goal := DrawWalk(t, VisitAll(t, [Root], cull), cursor, q, inc, cull, dc, hasFields);
    c, total := cursor, 0;
    var stack: seq<NodeId> := [Root];
    while stack != []
      invariant ValidIds(t, stack) && |c| == |t.nodes|
      invariant DrawWalk(t, VisitAll(t, stack, cull), c, q, inc, cull, dc, hasFields).0 == goal.0
      invariant total + DrawWalk(t, VisitAll(t, stack, cull), c, q, inc, cull, dc, hasFields).1 == goal.1
      decreases |VisitAll(t, stack, cull)|
    {
      var k := stack[|stack| - 1];
      var rest := stack[..|stack| - 1];
      assert stack == rest + [k];
      PopWalk(t, rest, k, cull);
      ghost var tail := VisitAll(t, Pushed(t, rest, k, cull), cull);
      DrawWalkCons(t, k, tail, c, q, inc, cull, dc, hasFields);
      stack := Pushed(t, rest, k, cull);
      var n;
      c, n := DrawNode(t, k, c, q, inc, cull, dc, hasFields);
      total := total + n;
    }
  }
}
