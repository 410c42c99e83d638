/**
 * Density-based clustering of the points picked for pole detection.
 *
 * Every point starts UNVISITED. Points are taken in index order; an unvisited
 * point with fewer than `minPts` neighbours (itself included when the
 * neighbour test is reflexive) is marked NOISE, otherwise it opens the next
 * cluster and the cluster grows through a worklist: every listed neighbour
 * that is NOISE or UNVISITED joins the cluster, and an UNVISITED one that has
 * enough neighbours itself appends all of them to the worklist.
 *
 * The Euclidean test `distance <= eps` is a neighbour relation given as a
 * parameter; point coordinates play no other part.
 */
module Dbscan {

  const Unvisited: int := -1
  const Noise: int := -2

  const SizeMod: int := 0x1_0000_0000_0000_0000

  /**
   * The minimum neighbour count as the comparison sees it: the int is
   * converted to a 64-bit size_t, so a negative value wraps around.
   */
  function Threshold(minPts: int): (t: nat)
    requires -0x8000_0000 <= minPts < 0x8000_0000
    ensures t < SizeMod && (t - minPts) % SizeMod == 0
  {
    if minPts >= 0 then minPts else minPts + SizeMod
  }

  /** The candidates below `m` that are neighbours of point `i`, in index order. */
  function Neighbors(nbr: (nat, nat) -> bool, i: nat, m: nat): seq<nat>
  {
    if m == 0 then [] else Neighbors(nbr, i, m - 1) + (if nbr(i, m - 1) then [m - 1] else [])
  }

  lemma {:induction false} NeighborsMember(nbr: (nat, nat) -> bool, i: nat, m: nat, q: nat)
    ensures q in Neighbors(nbr, i, m) <==> q < m && nbr(i, q)
    ensures forall k :: 0 <= k < |Neighbors(nbr, i, m)| ==> Neighbors(nbr, i, m)[k] < m
  {
    if m > 0 {
      NeighborsMember(nbr, i, m - 1, q);
    }
  }

  /** A core point has at least the threshold number of neighbours among the `n` points. */
  predicate IsCore(nbr: (nat, nat) -> bool, n: nat, t: nat, p: nat)
  {
    |Neighbors(nbr, p, n)| >= t
  }

  /** The neighbour scan of point `i` over all `n` points. */
  method RegionQuery(nbr: (nat, nat) -> bool, n: nat, i: nat) returns (r: seq<nat>)
    ensures r == Neighbors(nbr, i, n)
    ensures forall k :: 0 <= k < |r| ==> r[k] < n
    ensures forall q: nat :: q in r <==> q < n && nbr(i, q)
  {
    r := [];
    var j := 0;
    while j < n
      invariant 0 <= j <= n
      invariant r == Neighbors(nbr, i, j)
    {
      if nbr(i, j) {
        r := r + [j];
      }
      j := j + 1;
    }
    forall q: nat ensures q in r <==> q < n && nbr(i, q) {
      NeighborsMember(nbr, i, n, q);
    }
    NeighborsMember(nbr, i, n, 0);
  }

  /** The number of UNVISITED labels. */
  function CountUnvisited(ids: seq<int>): nat
  {
    if |ids| == 0 then 0 else CountUnvisited(ids[..|ids| - 1]) + (if ids[|ids| - 1] == Unvisited then 1 else 0)
  }

  /** Claiming an UNVISITED point lowers the count by one; relabelling any other point keeps it. */
  lemma {:induction false} CountAfterClaim(ids: seq<int>, p: nat, v: int)
    requires p < |ids| && v != Unvisited
    ensures CountUnvisited(ids[p := v]) == CountUnvisited(ids) - (if ids[p] == Unvisited then 1 else 0)
  {
    var m := |ids| - 1;
    if p < m {
      assert ids[p := v][..m] == ids[..m][p := v];
      CountAfterClaim(ids[..m], p, v);
    } else {
      assert ids[p := v][..m] == ids[..m];
    }
  }

  /** Every label is NOISE, UNVISITED or a cluster id. */
  predicate Labelled(ids: seq<int>)
  {
    forall p :: 0 <= p < |ids| ==> ids[p] >= Noise
  }

  /** NOISE is given only to points that are not core points. */
  ghost predicate NoiseNotCore(nbr: (nat, nat) -> bool, n: nat, t: nat, ids: seq<int>)
    requires |ids| == n
  {
    forall p :: 0 <= p < n && ids[p] == Noise ==> !IsCore(nbr, n, t, p)
  }

  /**
   * Every neighbour of a clustered core point is clustered too, or still
   * waits in `pending`.
   */
  ghost predicate Closed(nbr: (nat, nat) -> bool, n: nat, t: nat, ids: seq<int>, pending: seq<nat>)
    requires |ids| == n
  {
    forall p, q :: 0 <= p < n && 0 <= q < n && ids[p] >= 0 && IsCore(nbr, n, t, p) && nbr(p, q) ==>
      ids[q] >= 0 || q in pending
  }

  /** Point `p` is a neighbour of some core point labelled `c`. */
  ghost predicate Supported(nbr: (nat, nat) -> bool, n: nat, t: nat, ids: seq<int>, c: int, p: nat)
    requires |ids| == n
  {
    exists q :: 0 <= q < n && ids[q] == c && IsCore(nbr, n, t, q) && nbr(q, p)
  }

  /** Every clustered point is a core point or a neighbour of a core point of its own cluster. */
  ghost predicate Sound(nbr: (nat, nat) -> bool, n: nat, t: nat, ids: seq<int>)
    requires |ids| == n
  {
    forall p :: 0 <= p < n && ids[p] >= 0 ==> IsCore(nbr, n, t, p) || Supported(nbr, n, t, ids, ids[p], p)
  }

  /** Every worklist entry is a neighbour of a core point of cluster `c`. */
  ghost predicate Backed(nbr: (nat, nat) -> bool, n: nat, t: nat, ids: seq<int>, c: int, list: seq<nat>)
    requires |ids| == n
  {
    forall k :: 0 <= k < |list| ==> Supported(nbr, n, t, ids, c, list[k])
  }

  /** The neighbour test is symmetric on the `n` points, as a distance bound is. */
  ghost predicate Symmetric(nbr: (nat, nat) -> bool, n: nat)
  {
    forall p, q :: 0 <= p < n && 0 <= q < n && nbr(p, q) ==> nbr(q, p)
  }

  /** A clustered core point and each of its core neighbours share their label. */
  ghost predicate Grouped(nbr: (nat, nat) -> bool, n: nat, t: nat, ids: seq<int>)
    requires |ids| == n
  {
    forall p, q :: 0 <= p < n && 0 <= q < n && ids[p] >= 0 && IsCore(nbr, n, t, p) && IsCore(nbr, n, t, q) && nbr(p, q) ==>
      ids[q] == ids[p]
  }

  /**
   * Grouped, except that a core neighbour of a core point of the growing
   * cluster `c` may still wait in `pending`.
   */
  ghost predicate Joined(nbr: (nat, nat) -> bool, n: nat, t: nat, ids: seq<int>, c: int, pending: seq<nat>)
    requires |ids| == n
  {
    forall p, q :: 0 <= p < n && 0 <= q < n && ids[p] >= 0 && IsCore(nbr, n, t, p) && IsCore(nbr, n, t, q) && nbr(p, q) ==>
      ids[q] == ids[p] || (ids[p] == c && q in pending)
  }

  /** Relabelling a point that is not clustered keeps every support by a clustered core point. */
  lemma SupportKept(nbr: (nat, nat) -> bool, n: nat, t: nat, ids: seq<int>, i: nat, v: int, c: int, p: nat)
    requires |ids| == n && i < n && ids[i] < 0 <= c && Supported(nbr, n, t, ids, c, p)
    ensures Supported(nbr, n, t, ids[i := v], c, p)
  {
    var q :| 0 <= q < n && ids[q] == c && IsCore(nbr, n, t, q) && nbr(q, p);
    assert ids[i := v][q] == c;
  }

  /**
   * Labelling a point that is not clustered keeps the labels sound when the
   * new label is negative, or the point is core, or it is supported by its
   * new cluster; the supports of the worklist stay.
   */
  lemma SoundClaim(nbr: (nat, nat) -> bool, n: nat, t: nat, ids: seq<int>, i: nat, v: int, c: nat, list: seq<nat>)
    requires |ids| == n && i < n && ids[i] < 0 && Sound(nbr, n, t, ids) && Backed(nbr, n, t, ids, c, list)
    requires v >= 0 ==> IsCore(nbr, n, t, i) || Supported(nbr, n, t, ids, v, i)
    ensures Sound(nbr, n, t, ids[i := v]) && Backed(nbr, n, t, ids[i := v], c, list)
  {
    var ids' := ids[i := v];
    forall p | 0 <= p < n && ids'[p] >= 0
      ensures IsCore(nbr, n, t, p) || Supported(nbr, n, t, ids', ids'[p], p)
    {
      if !IsCore(nbr, n, t, p) {
        if p == i {
          SupportKept(nbr, n, t, ids, i, v, v, i);
        } else {
          SupportKept(nbr, n, t, ids, i, v, ids[p], p);
        }
      }
    }
    forall k | 0 <= k < |list| ensures Supported(nbr, n, t, ids', c, list[k]) {
      SupportKept(nbr, n, t, ids, i, v, c, list[k]);
    }
  }

  /** The neighbours of a core point labelled `c` are all supported by it. */
  lemma GrownBacked(nbr: (nat, nat) -> bool, n: nat, t: nat, ids: seq<int>, c: int, p: nat, list: seq<nat>, grown: seq<nat>)
    requires |ids| == n && p < n && ids[p] == c && IsCore(nbr, n, t, p)
    requires Backed(nbr, n, t, ids, c, list) && forall k :: 0 <= k < |grown| ==> nbr(p, grown[k])
    ensures Backed(nbr, n, t, ids, c, list + grown)
  {
    forall k | 0 <= k < |list + grown| ensures Supported(nbr, n, t, ids, c, (list + grown)[k]) {
      if k >= |list| {
        assert (list + grown)[k] == grown[k - |list|];
      }
    }
  }

  /**
   * Processing the head of the worklist keeps the closure for the rest of
   * the list, provided the head is now clustered and, when it was just
   * claimed as a core point, its neighbours were appended.
   */
  lemma ClosedStep(nbr: (nat, nat) -> bool, n: nat, t: nat, ids: seq<int>, ids': seq<int>,
                   pending: seq<nat>, added: seq<nat>)
    requires |ids| == n && |ids'| == n && |pending| > 0 && pending[0] < n
    requires Closed(nbr, n, t, ids, pending)
    requires ids'[pending[0]] >= 0
    requires forall p :: 0 <= p < n && p != pending[0] ==> ids'[p] == ids[p]
    requires ids[pending[0]] < 0 && IsCore(nbr, n, t, pending[0]) ==>
      forall q: nat :: q < n && nbr(pending[0], q) ==> q in added
    ensures Closed(nbr, n, t, ids', pending[1..] + added)
  {
    forall p, q | 0 <= p < n && 0 <= q < n && ids'[p] >= 0 && IsCore(nbr, n, t, p) && nbr(p, q)
      ensures ids'[q] >= 0 || q in pending[1..] + added
    {
      if ids[p] >= 0 && ids'[q] < 0 {
        assert q in pending;
        assert q != pending[0];
        var k :| 0 <= k < |pending| && pending[k] == q;
        assert pending[1..][k - 1] == q;
      }
    }
  }

  /**
   * Under a symmetric neighbour test, processing the head of the worklist
   * keeps core neighbours together: a clustered core head already carries
   * `c`, since the core point of `c` it neighbours is a neighbour of it, and
   * a core head just claimed hands all its neighbours to `added`.
   */
  lemma JoinedStep(nbr: (nat, nat) -> bool, n: nat, t: nat, ids: seq<int>, ids': seq<int>, c: nat,
                   pending: seq<nat>, added: seq<nat>)
    requires |ids| == n && |ids'| == n && |pending| > 0 && pending[0] < n
    requires Symmetric(nbr, n) && Joined(nbr, n, t, ids, c, pending) && Supported(nbr, n, t, ids, c, pending[0])
    requires forall p :: 0 <= p < n && p != pending[0] ==> ids'[p] == ids[p]
    requires ids[pending[0]] >= 0 ==> ids'[pending[0]] == ids[pending[0]]
    requires ids[pending[0]] < 0 ==> ids'[pending[0]] == c
    requires ids[pending[0]] < 0 && IsCore(nbr, n, t, pending[0]) ==>
      forall q: nat :: q < n && nbr(pending[0], q) ==> q in added
    ensures Joined(nbr, n, t, ids', c, pending[1..] + added)
  {
    var nb := pending[0];
    if ids[nb] >= 0 && IsCore(nbr, n, t, nb) {
      var r :| 0 <= r < n && ids[r] == c && IsCore(nbr, n, t, r) && nbr(r, nb);
      assert nbr(nb, r);
    }
    forall p, q | 0 <= p < n && 0 <= q < n && ids'[p] >= 0 && IsCore(nbr, n, t, p) && IsCore(nbr, n, t, q) && nbr(p, q)
      ensures ids'[q] == ids'[p] || (ids'[p] == c && q in pending[1..] + added)
    {
      if q in pending && q != nb {
        var k :| 0 <= k < |pending| && pending[k] == q;
        assert pending[1..][k - 1] == q;
      }
    }
  }

  /** JoinedStep for worklist entry `idx` of `list`, which grows to `list'`. */
  lemma JoinedNext(nbr: (nat, nat) -> bool, n: nat, t: nat, ids: seq<int>, ids': seq<int>, c: nat,
                   list: seq<nat>, list': seq<nat>, idx: nat)
    requires |ids| == n && |ids'| == n && idx < |list| && list[idx] < n
    requires |list| <= |list'| && list'[..|list|] == list
    requires Backed(nbr, n, t, ids, c, list) && (Symmetric(nbr, n) ==> Joined(nbr, n, t, ids, c, list[idx..]))
    requires forall p :: 0 <= p < n && p != list[idx] ==> ids'[p] == ids[p]
    requires ids[list[idx]] >= 0 ==> ids'[list[idx]] == ids[list[idx]]
    requires ids[list[idx]] < 0 ==> ids'[list[idx]] == c
    requires ids[list[idx]] < 0 && IsCore(nbr, n, t, list[idx]) ==>
      forall q: nat :: q < n && nbr(list[idx], q) ==> q in list'[|list|..]
    ensures Symmetric(nbr, n) ==> Joined(nbr, n, t, ids', c, list'[idx + 1..])
  {
    if Symmetric(nbr, n) {
      assert Supported(nbr, n, t, ids, c, list[idx]);
      JoinedStep(nbr, n, t, ids, ids', c, list[idx..], list'[|list|..]);
      assert list[idx..][1..] + list'[|list|..] == list'[idx + 1..];
    }
  }

  /**
   * One worklist entry: a NOISE point joins cluster `c` as a border point; an
   * UNVISITED point joins it and, when it has enough neighbours, hands them
   * back to be appended to the worklist. A clustered point is left alone.
   */
  method VisitNeighbor(nbr: (nat, nat) -> bool, n: nat, t: nat, ids: seq<int>, nb: nat, c: nat)
    returns (ids': seq<int>, grown: seq<nat>)
    requires |ids| == n && nb < n && Labelled(ids) && NoiseNotCore(nbr, n, t, ids)
    requires Sound(nbr, n, t, ids) && Supported(nbr, n, t, ids, c, nb)
    ensures |ids'| == n && ids'[nb] >= 0 && Labelled(ids') && NoiseNotCore(nbr, n, t, ids')
    ensures Sound(nbr, n, t, ids')
    ensures forall list: seq<nat> :: Backed(nbr, n, t, ids, c, list) ==> Backed(nbr, n, t, ids', c, list + grown)
    ensures forall p :: 0 <= p < n && p != nb ==> ids'[p] == ids[p]
    ensures ids[nb] >= 0 ==> ids'[nb] == ids[nb]
    ensures ids[nb] < 0 ==> ids'[nb] == c
    ensures ids[nb] < 0 && IsCore(nbr, n, t, nb) ==> forall q: nat :: q < n && nbr(nb, q) ==> q in grown
    ensures forall k :: 0 <= k < |grown| ==> grown[k] < n
    ensures CountUnvisited(ids') <= CountUnvisited(ids)
    ensures grown != [] ==> CountUnvisited(ids') < CountUnvisited(ids)
  {
    ids', grown := ids, [];
    if ids'[nb] == Noise {
      ids' := ids'[nb := c];
    }
    if ids'[nb] == Unvisited {
      ids' := ids'[nb := c];
      var more := RegionQuery(nbr, n, nb);
      if |more| >= t {
        grown := more;
      }
    }
    if ids[nb] < 0 {
      CountAfterClaim(ids, nb, c);
      forall list: seq<nat> | Backed(nbr, n, t, ids, c, list) ensures Backed(nbr, n, t, ids', c, list + grown) {
        SoundClaim(nbr, n, t, ids, nb, c, c, list);
        if grown != [] {
          forall k | 0 <= k < |grown| ensures nbr(nb, grown[k]) {
            assert grown[k] in grown;
          }
          GrownBacked(nbr, n, t, ids', c, nb, list, grown);
        }
      }
      SoundClaim(nbr, n, t, ids, nb, c, c, []);
    }
  }

  /**
   * The state of the worklist loop growing cluster `c` from labels `ids`:
   * entries before `idx` are processed and clustered, clustered labels are
   * kept, changed labels became `c`, and the labels stay sound and closed up
   * to the entries still waiting.
   */
  ghost predicate Expanding(nbr: (nat, nat) -> bool, n: nat, t: nat, ids: seq<int>, ids': seq<int>, c: nat,
                            neighbors: seq<nat>, list: seq<nat>, idx: nat)
  {
    && idx <= |list| && |neighbors| <= |list| && list[..|neighbors|] == neighbors
    && |ids| == n && |ids'| == n && (forall k :: 0 <= k < |list| ==> list[k] < n)
    && (forall p :: 0 <= p < n && ids[p] >= 0 ==> ids'[p] == ids[p])
    && (forall p :: 0 <= p < n && ids'[p] != ids[p] ==> ids'[p] == c && (ids[p] == Unvisited || ids[p] == Noise))
    && (forall k :: 0 <= k < idx ==> ids'[list[k]] >= 0)
    && Labelled(ids') && NoiseNotCore(nbr, n, t, ids') && Closed(nbr, n, t, ids', list[idx..])
    && Sound(nbr, n, t, ids') && Backed(nbr, n, t, ids', c, list)
  }

  /**
   * Processes worklist entry `idx`: only that point's label may change, a
   * label that was not a cluster id becomes `c`, and when the point was
   * UNVISITED and core its neighbours are appended to the worklist.
   */
  method ExpandStep(nbr: (nat, nat) -> bool, n: nat, t: nat, ids: seq<int>, cur: seq<int>, c: nat,
                    neighbors: seq<nat>, list: seq<nat>, idx: nat)
    returns (ids': seq<int>, list': seq<nat>)
    requires idx < |list| && Expanding(nbr, n, t, ids, cur, c, neighbors, list, idx)
    ensures Expanding(nbr, n, t, ids, ids', c, neighbors, list', idx + 1)
    ensures |list| <= |list'| && list'[..|list|] == list
    ensures forall p :: 0 <= p < n && p != list[idx] ==> ids'[p] == cur[p]
    ensures cur[list[idx]] >= 0 ==> ids'[list[idx]] == cur[list[idx]]
    ensures cur[list[idx]] < 0 ==> ids'[list[idx]] == c
    ensures cur[list[idx]] < 0 && IsCore(nbr, n, t, list[idx]) ==>
      forall q: nat :: q < n && nbr(list[idx], q) ==> q in list'[|list|..]
    ensures CountUnvisited(ids') < CountUnvisited(cur) || (CountUnvisited(ids') == CountUnvisited(cur) && list' == list)
  {
    var nb := list[idx];
    assert Supported(nbr, n, t, cur, c, nb);
    var grown;
    ids', grown := VisitNeighbor(nbr, n, t, cur, nb, c);
    ClosedStep(nbr, n, t, cur, ids', list[idx..], grown);
    assert list[idx..][1..] + grown == (list + grown)[idx + 1..];
    list' := list + grown;
    assert list'[..|neighbors|] == neighbors;
    forall k | 0 <= k < idx + 1 ensures ids'[list'[k]] >= 0 {
      assert list'[k] == list[k];
    }
    assert list'[..|list|] == list && list'[|list|..] == grown;
  }

  /**
   * Grows cluster `c` from the worklist `neighbors` of its seed. Labels that
   * are already cluster ids never change; a NOISE or UNVISITED point on the
   * worklist joins `c`, and an UNVISITED one with enough neighbours appends
   * them all.
   */
  method ExpandCluster(nbr: (nat, nat) -> bool, n: nat, t: nat, ids: seq<int>, neighbors: seq<nat>, c: nat)
    returns (ids': seq<int>)
    requires |ids| == n && forall k :: 0 <= k < |neighbors| ==> neighbors[k] < n
    requires Labelled(ids) && NoiseNotCore(nbr, n, t, ids) && Closed(nbr, n, t, ids, neighbors)
    requires Sound(nbr, n, t, ids) && Backed(nbr, n, t, ids, c, neighbors)
    requires Symmetric(nbr, n) ==> Joined(nbr, n, t, ids, c, neighbors)
    ensures |ids'| == n
    ensures Sound(nbr, n, t, ids')
    ensures forall p :: 0 <= p < n && ids[p] >= 0 ==> ids'[p] == ids[p]
    ensures forall p :: 0 <= p < n && ids'[p] != ids[p] ==> ids'[p] == c && (ids[p] == Unvisited || ids[p] == Noise)
    ensures forall k :: 0 <= k < |neighbors| ==> ids'[neighbors[k]] >= 0
    ensures Labelled(ids') && NoiseNotCore(nbr, n, t, ids') && Closed(nbr, n, t, ids', [])
    ensures Symmetric(nbr, n) ==> Grouped(nbr, n, t, ids')
  {
    ids' := ids;
    var list: seq<nat> := neighbors;
    var idx := 0;
    assert list[..|neighbors|] == neighbors;
    assert list[idx..] == neighbors;
    while idx < |list|
      invariant Expanding(nbr, n, t, ids, ids', c, neighbors, list, idx)
      invariant Symmetric(nbr, n) ==> Joined(nbr, n, t, ids', c, list[idx..])
      decreases CountUnvisited(ids'), |list| - idx
    {
      ghost var cur, before := ids', list;
      ids', list := ExpandStep(nbr, n, t, ids, ids', c, neighbors, list, idx);
      JoinedNext(nbr, n, t, cur, ids', c, before, list, idx);
      idx := idx + 1;
    }
    forall k | 0 <= k < |neighbors| ensures ids'[neighbors[k]] >= 0 {
      assert neighbors[k] == list[k];
    }
    assert list[idx..] == [];
  }

  /** Some core point carries label `c`. */
  ghost predicate HasCore(nbr: (nat, nat) -> bool, n: nat, t: nat, ids: seq<int>, c: int)
    requires |ids| == n
  {
    exists p :: 0 <= p < n && ids[p] == c && IsCore(nbr, n, t, p)
  }

  /**
   * What the clustering guarantees about its labels `ids` for `n` points:
   * every point is NOISE or in one of the clusters 0 .. clusters-1; every
   * cluster contains a core point; no core point is NOISE; every neighbour
   * of a core point is in some cluster; every clustered point is a core
   * point or a neighbour of a core point of its own cluster; and, when the
   * neighbour test is symmetric, two neighbouring core points are in the
   * same cluster.
   */
  ghost predicate IsDbscanLabelling(nbr: (nat, nat) -> bool, n: nat, t: nat, ids: seq<int>, clusters: nat)
  {
    && |ids| == n
    && (forall p :: 0 <= p < n ==> ids[p] == Noise || 0 <= ids[p] < clusters)
    && (forall c :: 0 <= c < clusters ==> HasCore(nbr, n, t, ids, c))
    && NoiseNotCore(nbr, n, t, ids)
    && (forall p, q :: 0 <= p < n && 0 <= q < n && IsCore(nbr, n, t, p) && nbr(p, q) ==> ids[q] >= 0)
    && (forall p :: 0 <= p < n && ids[p] >= 0 ==>
          IsCore(nbr, n, t, p) || exists q :: 0 <= q < n && ids[q] == ids[p] && IsCore(nbr, n, t, q) && nbr(q, p))
    && (Symmetric(nbr, n) ==>
          forall p, q :: 0 <= p < n && 0 <= q < n && IsCore(nbr, n, t, p) && IsCore(nbr, n, t, q) && nbr(p, q) ==>
            ids[p] == ids[q])
  }

  /**
   * Two points that are each other's neighbours, both core at threshold 2,
   * cannot be put in two different clusters.
   */
  lemma SplitCoresRejected()
    ensures !IsDbscanLabelling((p: nat, q: nat) => true, 2, 2, [0, 1], 2)
  {
    var all := (p: nat, q: nat) => true;
    assert Neighbors(all, 0, 2) == [0, 1];
    assert Neighbors(all, 1, 2) == [0, 1];
  }

  /** A core seed opening a cluster leaves its neighbour list as the worklist that closes it. */
  lemma SeedClosed(nbr: (nat, nat) -> bool, n: nat, t: nat, ids: seq<int>, i: nat, c: nat, neighbors: seq<nat>)
    requires |ids| == n && i < n && ids[i] < 0 && Closed(nbr, n, t, ids, [])
    requires forall q: nat :: q in neighbors <==> q < n && nbr(i, q)
    ensures Closed(nbr, n, t, ids[i := c], neighbors)
  {
  }

  /**
   * A core seed that was not clustered has no clustered core neighbour, so
   * under a symmetric neighbour test it opens cluster `c` with its neighbour
   * list pending.
   */
  lemma SeedJoined(nbr: (nat, nat) -> bool, n: nat, t: nat, ids: seq<int>, i: nat, c: nat, neighbors: seq<nat>)
    requires |ids| == n && i < n && ids[i] < 0 && Grouped(nbr, n, t, ids)
    requires forall q: nat :: q in neighbors <==> q < n && nbr(i, q)
    ensures Joined(nbr, n, t, ids[i := c], c, neighbors)
  {
  }

  /** The neighbours of a core seed labelled `c` are backed by it. */
  lemma SeedBacked(nbr: (nat, nat) -> bool, n: nat, t: nat, ids: seq<int>, i: nat, c: int, neighbors: seq<nat>)
    requires |ids| == n && i < n && ids[i] == c && IsCore(nbr, n, t, i)
    requires forall q: nat :: q in neighbors <==> q < n && nbr(i, q)
    ensures Backed(nbr, n, t, ids, c, neighbors)
  {
    forall k | 0 <= k < |neighbors| ensures Supported(nbr, n, t, ids, c, neighbors[k]) {
      assert neighbors[k] in neighbors;
    }
  }

  /** A point that is not core turned NOISE keeps the labels closed. */
  lemma NoiseClosed(nbr: (nat, nat) -> bool, n: nat, t: nat, ids: seq<int>, i: nat)
    requires |ids| == n && i < n && ids[i] < 0 && Closed(nbr, n, t, ids, [])
    requires !IsCore(nbr, n, t, i) && (Symmetric(nbr, n) ==> Grouped(nbr, n, t, ids))
    ensures Closed(nbr, n, t, ids[i := Noise], []) && (Symmetric(nbr, n) ==> Grouped(nbr, n, t, ids[i := Noise]))
  {
  }

  /** The state after the last point: the labels form a DBSCAN labelling, one seed per cluster. */
  lemma LabellingDone(nbr: (nat, nat) -> bool, n: nat, t: nat, ids: seq<int>, clusters: nat, seeds: seq<nat>)
    requires |ids| == n && Labelled(ids) && forall p :: 0 <= p < n ==> ids[p] != Unvisited && ids[p] < clusters
    requires |seeds| == clusters
    requires forall c :: 0 <= c < clusters ==> seeds[c] < n && ids[seeds[c]] == c && IsCore(nbr, n, t, seeds[c])
    requires NoiseNotCore(nbr, n, t, ids) && Closed(nbr, n, t, ids, []) && Sound(nbr, n, t, ids)
    requires Symmetric(nbr, n) ==> Grouped(nbr, n, t, ids)
    ensures IsDbscanLabelling(nbr, n, t, ids, clusters)
  {
    forall c | 0 <= c < clusters ensures HasCore(nbr, n, t, ids, c) {
      assert ids[seeds[c]] == c;
    }
    forall p, q | 0 <= p < n && 0 <= q < n && IsCore(nbr, n, t, p) && nbr(p, q) ensures ids[q] >= 0 {
      assert ids[p] >= 0;
    }
    if Symmetric(nbr, n) {
      forall p, q | 0 <= p < n && 0 <= q < n && IsCore(nbr, n, t, p) && IsCore(nbr, n, t, q) && nbr(p, q)
        ensures ids[p] == ids[q]
      {
        assert ids[p] >= 0;
      }
    }
  }

  /**
   * The state of the clustering loop before point `i`: the points before `i`
   * are labelled, every cluster so far has a core seed, the labels are
   * closed and sound, and under a symmetric neighbour test neighbouring core
   * points share their label.
   */
  ghost predicate Clustering(nbr: (nat, nat) -> bool, n: nat, t: nat, ids: seq<int>, i: nat,
                             clusterId: nat, seeds: seq<nat>)
  {
    && i <= n && |ids| == n && Labelled(ids)
    && (forall p :: 0 <= p < i ==> ids[p] != Unvisited)
    && (forall p :: 0 <= p < n ==> ids[p] < clusterId)
    && |seeds| == clusterId
    && (forall c :: 0 <= c < clusterId ==> seeds[c] < n && ids[seeds[c]] == c && IsCore(nbr, n, t, seeds[c]))
    && NoiseNotCore(nbr, n, t, ids) && Closed(nbr, n, t, ids, []) && Sound(nbr, n, t, ids)
    && (Symmetric(nbr, n) ==> Grouped(nbr, n, t, ids))
  }

  /**
   * Point `i` of the clustering loop: left alone when already labelled;
   * otherwise NOISE when it has fewer than `t` neighbours, or the seed of a
   * new cluster grown from its neighbours.
   */
  method ClusterStep(nbr: (nat, nat) -> bool, n: nat, t: nat, ids: seq<int>, i: nat, clusterId: nat,
                     ghost seeds: seq<nat>)
    returns (ids': seq<int>, clusterId': nat, ghost seeds': seq<nat>)
    requires i < n && Clustering(nbr, n, t, ids, i, clusterId, seeds)
    ensures Clustering(nbr, n, t, ids', i + 1, clusterId', seeds')
  {
    ids', clusterId', seeds' := ids, clusterId, seeds;
    if ids[i] == Unvisited {
      var neighbors := RegionQuery(nbr, n, i);
      if |neighbors| < t {
        NoiseClosed(nbr, n, t, ids, i);
        SoundClaim(nbr, n, t, ids, i, Noise, clusterId, []);
        ids' := ids[i := Noise];
      } else {
        SeedClosed(nbr, n, t, ids, i, clusterId, neighbors);
        SoundClaim(nbr, n, t, ids, i, clusterId, clusterId, []);
        SeedBacked(nbr, n, t, ids[i := clusterId], i, clusterId, neighbors);
        if Symmetric(nbr, n) {
          SeedJoined(nbr, n, t, ids, i, clusterId, neighbors);
        }
        ids' := ids[i := clusterId];
        ids' := ExpandCluster(nbr, n, t, ids', neighbors, clusterId);
        seeds' := seeds + [i];
        clusterId' := clusterId + 1;
      }
    }
  }

  /**
   * The clustering of `n` points under the neighbour relation `nbr` with
   * minimum neighbour count `minPts`: one label per point, never UNVISITED,
   * forming a DBSCAN labelling with `clusters` clusters numbered from 0.
   */
  method Cluster(n: nat, nbr: (nat, nat) -> bool, minPts: int) returns (ids: seq<int>, clusters: nat)
    requires -0x8000_0000 <= minPts < 0x8000_0000
    ensures IsDbscanLabelling(nbr, n, Threshold(minPts), ids, clusters)
  {
    var t := Threshold(minPts);
    ids := seq(n, _ => Unvisited);
    var clusterId: nat := 0;
    ghost var seeds: seq<nat> := [];
    var i := 0;
    while i < n
      invariant Clustering(nbr, n, t, ids, i, clusterId, seeds)
    {
      ids, clusterId, seeds := ClusterStep(nbr, n, t, ids, i, clusterId, seeds);
      i := i + 1;
    }
    clusters := clusterId;
    LabellingDone(nbr, n, t, ids, clusters, seeds);
  }
}
