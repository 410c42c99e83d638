/**
 * The best-first search for the stored point nearest to a pick ray.
 *
 * Nodes wait in a priority queue keyed by a lower bound of the pick distance
 * over their box (moved by the store offset). The search takes the node of
 * least bound, expands an internal node into its children and asks a leaf for
 * its nearest point, and stops once the least bound exceeds the best distance
 * found so far. The distance function, its box bound and the per-leaf search
 * are collaborators given as function parameters.
 */
module Picking {
  import opened Geometry
  import opened Octree

  /** The largest finite double, the starting value of the nearest-point search. */
  const DblMax: real := 179769313486231570814527423731704356798070567525844996598917476803157260780028538760589558632766878171540458953514382464234321326889464182768467546703537516986049910576551282076245490090389328944075868508455133942304583236903222948165808559332123348274797826204144723168738177180919299881250404026184124858368.0

  /**
   * The nearest-point search of a leaf over storage range [b, e) returns an
   * index and its distance: no more than DblMax, no more than the distance of
   * any point in the range, and, when below DblMax, a point of the range at
   * exactly that distance.
   */
  ghost predicate FindsNearest(findNearest: (nat, nat) -> (nat, real), dist: nat -> real)
  {
    forall b: nat, e: nat {:trigger findNearest(b, e)} ::
      var r := findNearest(b, e);
      && r.1 <= DblMax
      && (forall p :: b <= p < e ==> r.1 <= dist(p))
      && (r.1 < DblMax ==> b <= r.0 < e && dist(r.0) == r.1)
  }

  /** The queue priority of node `k`: the distance bound over its box moved by `offset`. */
  function Priority(t: Tree, offset: Vec3, bound: Box -> real, k: NodeId): real
    requires k < |t.nodes|
  {
    bound(Translate(t.nodes[k].bbox, offset))
  }

  /** The bound of a node is below the distance of every point under it. */
  ghost predicate BoundsBelow(t: Tree, offset: Vec3, bound: Box -> real, dist: nat -> real)
    requires Ordered(t)
  {
    forall k, p :: 0 <= k < |t.nodes| && p in Points(t, k) ==> Priority(t, offset, bound, k) <= dist(p)
  }

  /** The position of an entry of least priority in a non-empty queue: the queue's top. */
  function Top(t: Tree, offset: Vec3, bound: Box -> real, q: seq<NodeId>): (i: nat)
    requires ValidIds(t, q) && q != []
    ensures i < |q| && forall j :: 0 <= j < |q| ==> Priority(t, offset, bound, q[i]) <= Priority(t, offset, bound, q[j])
  {
    if |q| == 1 then 0
    else
      var i := Top(t, offset, bound, q[..|q| - 1]);
      assert forall j :: 0 <= j < |q| - 1 ==> q[..|q| - 1][j] == q[j];
      if Priority(t, offset, bound, q[|q| - 1]) < Priority(t, offset, bound, q[i]) then |q| - 1 else i
  }

  /** `scans[i]` is what the leaf search returned for leaf `leaves[i]`. */
  ghost predicate Scanned(t: Tree, leaves: seq<NodeId>, scans: seq<(nat, real)>,
                          findNearest: (nat, nat) -> (nat, real))
  {
    && |scans| == |leaves|
    && forall i :: 0 <= i < |leaves| ==>
         && leaves[i] < |t.nodes| && t.nodes[leaves[i]].Leaf?
         && scans[i] == findNearest(t.nodes[leaves[i]].beginIndex, t.nodes[leaves[i]].endIndex)
  }

  /** Recording one more leaf scan keeps the record consistent. */
  lemma ScannedExtend(t: Tree, leaves: seq<NodeId>, scans: seq<(nat, real)>,
                      findNearest: (nat, nat) -> (nat, real), k: NodeId)
    requires Scanned(t, leaves, scans, findNearest) && k < |t.nodes| && t.nodes[k].Leaf?
    ensures Scanned(t, leaves + [k], scans + [findNearest(t.nodes[k].beginIndex, t.nodes[k].endIndex)], findNearest)
  {
    var leaves', scans' := leaves + [k], scans + [findNearest(t.nodes[k].beginIndex, t.nodes[k].endIndex)];
    forall j | 0 <= j < |leaves'|
      ensures leaves'[j] < |t.nodes| && t.nodes[leaves'[j]].Leaf?
      ensures scans'[j] == findNearest(t.nodes[leaves'[j]].beginIndex, t.nodes[leaves'[j]].endIndex)
    {
      if j < |leaves| { assert leaves'[j] == leaves[j] && scans'[j] == scans[j]; }
    }
  }

  /** Scan `i` returned `(idx, d)` and every earlier scan returned a larger distance. */
  ghost predicate FirstBestAt(scans: seq<(nat, real)>, i: int, idx: nat, d: real)
  {
    && 0 <= i < |scans| && scans[i] == (idx, d)
    && forall j :: 0 <= j < i ==> scans[j].1 > d
  }

  /**
   * The loop state of the search: the best distance is no more than DblMax,
   * reached by a stored point when below it, no more than the distance of
   * any point no longer below a queued node and than any scan result, and
   * first found by scan `best`.
   */
  ghost predicate Searching(t: Tree, n: nat, queue: seq<NodeId>, closestIdx: nat, closestDist: real, best: int,
                            leaves: seq<NodeId>, scans: seq<(nat, real)>,
                            dist: nat -> real, findNearest: (nat, nat) -> (nat, real))
    requires Ordered(t)
  {
    && ValidIds(t, queue)
    && closestDist <= DblMax
    && (closestDist < DblMax ==> closestIdx < n && dist(closestIdx) == closestDist)
    && (forall p :: 0 <= p < n && p !in StackPoints(t, queue) ==> closestDist <= dist(p))
    && Scanned(t, leaves, scans, findNearest)
    && (forall i :: 0 <= i < |scans| ==> closestDist <= scans[i].1)
    && (closestDist < DblMax ==> FirstBestAt(scans, best, closestIdx, closestDist))
  }

  /** Expanding an internal node keeps the search state and shortens the walk. */
  lemma ExpandStep(t: Tree, n: nat, queue: seq<NodeId>, i: nat, closestIdx: nat, closestDist: real, best: int,
                   leaves: seq<NodeId>, scans: seq<(nat, real)>,
                   dist: nat -> real, findNearest: (nat, nat) -> (nat, real))
    requires WellFormed(t, n)
    requires Searching(t, n, queue, closestIdx, closestDist, best, leaves, scans, dist, findNearest)
    requires i < |queue| && t.nodes[queue[i]].Internal?
    ensures var q' := queue[..i] + queue[i + 1..] + t.nodes[queue[i]].children;
      && ValidIds(t, q') && |VisitAll(t, q', NoCull)| < |VisitAll(t, queue, NoCull)|
      && Searching(t, n, q', closestIdx, closestDist, best, leaves, scans, dist, findNearest)
  {
    QueueExpand(t, queue, i);
  }

  /**
   * Scanning a leaf keeps the search state and shortens the walk: the new
   * best is the scan's result when it is strictly smaller.
   */
  lemma ScanStep(t: Tree, n: nat, queue: seq<NodeId>, i: nat, closestIdx: nat, closestDist: real, best: int,
                 leaves: seq<NodeId>, scans: seq<(nat, real)>,
                 dist: nat -> real, findNearest: (nat, nat) -> (nat, real))
    requires WellFormed(t, n) && FindsNearest(findNearest, dist)
    requires Searching(t, n, queue, closestIdx, closestDist, best, leaves, scans, dist, findNearest)
    requires i < |queue| && t.nodes[queue[i]].Leaf?
    ensures var k := queue[i];
      var r := findNearest(t.nodes[k].beginIndex, t.nodes[k].endIndex);
      var q' := queue[..i] + queue[i + 1..];
      && ValidIds(t, q') && |VisitAll(t, q', NoCull)| < |VisitAll(t, queue, NoCull)|
      && if r.1 < closestDist
         then Searching(t, n, q', r.0, r.1, |scans|, leaves + [k], scans + [r], dist, findNearest)
         else Searching(t, n, q', closestIdx, closestDist, best, leaves + [k], scans + [r], dist, findNearest)
  {
    var k := queue[i];
    QueueTake(t, queue, i);
    PointsOfNode(t, k);
    var r := findNearest(t.nodes[k].beginIndex, t.nodes[k].endIndex);
    ScannedExtend(t, leaves, scans, findNearest, k);
  }

  /** When the least bound in the queue exceeds the best distance, no queued point can beat it. */
  lemma StopEarly(t: Tree, n: nat, offset: Vec3, bound: Box -> real, queue: seq<NodeId>, closestIdx: nat,
                  closestDist: real, best: int, leaves: seq<NodeId>, scans: seq<(nat, real)>,
                  dist: nat -> real, findNearest: (nat, nat) -> (nat, real))
    requires WellFormed(t, n) && BoundsBelow(t, offset, bound, dist)
    requires Searching(t, n, queue, closestIdx, closestDist, best, leaves, scans, dist, findNearest)
    requires queue != [] && Priority(t, offset, bound, queue[Top(t, offset, bound, queue)]) > closestDist
    ensures forall p :: 0 <= p < n ==> closestDist <= dist(p)
  {
    forall p | 0 <= p < n && p in StackPoints(t, queue) ensures closestDist <= dist(p) {
      StackPointsMember(t, queue, p);
      var j :| 0 <= j < |queue| && p in Points(t, queue[j]);
    }
  }

  /**
   * One iteration of the search: pop the node with the least bound; stop when
   * that bound exceeds the best distance, expand an internal node, or scan a
   * leaf and keep the first strictly smaller distance.
   */
  method SearchStep(t: Tree, n: nat, offset: Vec3, bound: Box -> real, dist: nat -> real,
                    findNearest: (nat, nat) -> (nat, real), queue: seq<NodeId>, closestIdx: nat,
                    closestDist: real, ghost best: int, ghost leaves: seq<NodeId>, ghost scans: seq<(nat, real)>)
    returns (done: bool, queue': seq<NodeId>, closestIdx': nat, closestDist': real,
             ghost best': int, ghost leaves': seq<NodeId>, ghost scans': seq<(nat, real)>)
    requires WellFormed(t, n) && BoundsBelow(t, offset, bound, dist) && FindsNearest(findNearest, dist)
    requires Searching(t, n, queue, closestIdx, closestDist, best, leaves, scans, dist, findNearest)
    requires queue != []
    ensures Searching(t, n, queue', closestIdx', closestDist', best', leaves', scans', dist, findNearest)
    ensures done ==> forall p :: 0 <= p < n ==> closestDist' <= dist(p)
    ensures !done ==> |VisitAll(t, queue', NoCull)| < |VisitAll(t, queue, NoCull)|
  {
    done, queue', closestIdx', closestDist' := false, queue, closestIdx, closestDist;
    best', leaves', scans' := best, leaves, scans;
    var i := Top(t, offset, bound, queue);
    var nextMinDist := Priority(t, offset, bound, queue[i]);
    if nextMinDist > closestDist {
      StopEarly(t, n, offset, bound, queue, closestIdx, closestDist, best, leaves, scans, dist, findNearest);
      done := true;
      return;
    }
    var k := queue[i];
    if t.nodes[k].Internal? {
      ExpandStep(t, n, queue, i, closestIdx, closestDist, best, leaves, scans, dist, findNearest);
      queue' := queue[..i] + queue[i + 1..] + t.nodes[k].children;
    } else {
      ScanStep(t, n, queue, i, closestIdx, closestDist, best, leaves, scans, dist, findNearest);
      queue' := queue[..i] + queue[i + 1..];
      var r := findNearest(t.nodes[k].beginIndex, t.nodes[k].endIndex);
      leaves', scans' := leaves + [k], scans + [r];
      if r.1 < closestDist {
        closestDist', closestIdx' := r.1, r.0;
        best' := |scans|;
      }
    }
  }

  /**
   * The search over a well-formed tree of `n` points. The result is no more
   * than the distance of any stored point, is reached by a stored point when
   * below DblMax, and comes from the first leaf scan that found that distance.
   */
  method NearestPoint(t: Tree, n: nat, offset: Vec3, bound: Box -> real, dist: nat -> real,
                      findNearest: (nat, nat) -> (nat, real))
    returns (closestIdx: nat, closestDist: real, ghost leaves: seq<NodeId>, ghost scans: seq<(nat, real)>)
    requires WellFormed(t, n) && BoundsBelow(t, offset, bound, dist) && FindsNearest(findNearest, dist)
    ensures closestDist <= DblMax
    ensures closestDist < DblMax ==> closestIdx < n && dist(closestIdx) == closestDist
    ensures forall p :: 0 <= p < n ==> closestDist <= dist(p)
    ensures Scanned(t, leaves, scans, findNearest)
    ensures closestDist < DblMax ==> exists i :: FirstBestAt(scans, i, closestIdx, closestDist)
  {
    leaves, scans := [], [];
    closestDist, closestIdx := DblMax, 0;
    ghost var best := 0;
    RootStack(t, NoCull);
    var queue: seq<NodeId> := [Root];
    while queue != []
      invariant Searching(t, n, queue, closestIdx, closestDist, best, leaves, scans, dist, findNearest)
      decreases |VisitAll(t, queue, NoCull)|
    {
      var done;
      done, queue, closestIdx, closestDist, best, leaves, scans :=
        SearchStep(t, n, offset, bound, dist, findNearest, queue, closestIdx, closestDist, best, leaves, scans);
      if done {
        break;
      }
    }
  }
}
