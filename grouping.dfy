/**
 * The grouping of clustered points into poles: point indices are gathered
 * per label into an ordered map, one pole per key. The label that the
 * grouping skips is a parameter; the window code skips UNVISITED, which the
 * clustering never leaves, so NOISE points are grouped as a pole of their
 * own. Centroid and height computation per group is not part of this model.
 */
module Grouping {
  import opened Dbscan

  /** The indices with label `k`, ascending. */
  function Members(ids: seq<int>, k: int): (r: seq<nat>)
    ensures forall j :: 0 <= j < |r| ==> r[j] < |ids| && ids[r[j]] == k
  {
    if |ids| == 0 then []
    else Members(ids[..|ids| - 1], k) + (if ids[|ids| - 1] == k then [|ids| - 1] else [])
  }

  /** Every index with label `k` is a member, and the members are strictly ascending. */
  lemma {:induction false} MembersExact(ids: seq<int>, k: int)
    ensures forall p :: 0 <= p < |ids| && ids[p] == k ==> p in Members(ids, k)
    ensures forall i, j :: 0 <= i < j < |Members(ids, k)| ==> Members(ids, k)[i] < Members(ids, k)[j]
  {
    if |ids| > 0 {
      var m := |ids| - 1;
      MembersExact(ids[..m], k);
      forall p | 0 <= p < m && ids[p] == k ensures p in Members(ids, k) {
        assert ids[..m][p] == k;
      }
    }
  }

  /** The labels present in `ids` other than `skip`. */
  function Keys(ids: seq<int>, skip: int): set<int>
  {
    set p | 0 <= p < |ids| && ids[p] != skip :: ids[p]
  }

  lemma KeysExtend(ids: seq<int>, skip: int, i: nat)
    requires i < |ids|
    ensures Keys(ids[..i + 1], skip) == Keys(ids[..i], skip) + (if ids[i] != skip then {ids[i]} else {})
  {
    var a, b := ids[..i + 1], ids[..i];
    forall x | x in Keys(a, skip) ensures x in Keys(b, skip) + (if ids[i] != skip then {ids[i]} else {}) {
      var p :| 0 <= p < |a| && a[p] != skip && a[p] == x;
      if p < i { assert b[p] == x; }
    }
    forall x | x in Keys(b, skip) ensures x in Keys(a, skip) {
      var p :| 0 <= p < |b| && b[p] != skip && b[p] == x;
      assert a[p] == x;
    }
    if ids[i] != skip { assert a[i] == ids[i]; }
  }

  /** A label other than `skip` that has members is present. */
  lemma MembersPresent(ids: seq<int>, skip: int, k: int)
    requires k != skip && Members(ids, k) != []
    ensures k in Keys(ids, skip)
  {
    var p := Members(ids, k)[0];
    assert ids[p] == k;
  }

  /** The groups of the labels in `ids` other than `skip`. */
  ghost function Groups(ids: seq<int>, skip: int): map<int, seq<nat>>
  {
    map k | k in Keys(ids, skip) :: Members(ids, k)
  }

  lemma MembersExtend(ids: seq<int>, i: nat, k: int)
    requires i < |ids|
    ensures Members(ids[..i + 1], k) == Members(ids[..i], k) + (if ids[i] == k then [i] else [])
  {
    assert ids[..i + 1][..i] == ids[..i];
  }

  /** One more point joins the group of its label, unless it is skipped. */
  lemma GroupsExtend(ids: seq<int>, skip: int, i: nat)
    requires i < |ids|
    ensures var g := Groups(ids[..i], skip); var k := ids[i];
      Groups(ids[..i + 1], skip) ==
        if k == skip then g else g[k := (if k in g then g[k] else []) + [i]]
  {
    var g, g' := Groups(ids[..i], skip), Groups(ids[..i + 1], skip);
    var k := ids[i];
    var expected := if k == skip then g else g[k := (if k in g then g[k] else []) + [i]];
    KeysExtend(ids, skip, i);
    assert g'.Keys == expected.Keys;
    forall x | x in g' ensures g'[x] == expected[x] {
      MembersExtend(ids, i, x);
      if x == k && k !in g && Members(ids[..i], k) != [] {
        MembersPresent(ids[..i], skip, k);
      }
    }
  }

  /**
   * Gathers the point indices by label, leaving out points labelled `skip`:
   * the keys are exactly the other labels present, and each key maps to the
   * indices with that label in ascending order.
   */
  method GroupByLabel(ids: seq<int>, skip: int) returns (groups: map<int, seq<nat>>)
    ensures groups.Keys == Keys(ids, skip)
    ensures forall k :: k in groups ==> groups[k] == Members(ids, k)
  {
    groups := map[];
    var i := 0;
    while i < |ids|
      invariant 0 <= i <= |ids|
      invariant groups == Groups(ids[..i], skip)
    {
      GroupsExtend(ids, skip, i);
      var key := ids[i];
      if key != skip {
        var g := if key in groups then groups[key] else [];
        groups := groups[key := g + [i]];
      }
      i := i + 1;
    }
    assert ids[..|ids|] == ids;
  }

  /**
   * One point with a reflexive neighbour test and a minimum of two
   * neighbours has a single neighbour, so every DBSCAN labelling of it is
   * NOISE, and skipping UNVISITED keeps NOISE as a pole key.
   */
  lemma NoisePole(nbr: (nat, nat) -> bool, ids: seq<int>, clusters: nat)
    requires nbr(0, 0)
    requires IsDbscanLabelling(nbr, 1, Threshold(2), ids, clusters)
    ensures ids == [Noise] && Noise in Keys(ids, Unvisited)
  {
    assert Neighbors(nbr, 0, 1) == [0];
    assert !IsCore(nbr, 1, Threshold(2), 0);
    assert !HasCore(nbr, 1, Threshold(2), ids, ids[0]);
    assert ids == [Noise];
    assert ids[0] != Unvisited;
  }

  /**
   * Skipping NOISE instead, the pole keys of a DBSCAN labelling are exactly
   * the cluster ids 0 .. clusters-1, and every group holds a core point.
   */
  lemma GroupsAreClusters(nbr: (nat, nat) -> bool, n: nat, t: nat, ids: seq<int>, clusters: nat)
    requires IsDbscanLabelling(nbr, n, t, ids, clusters)
    ensures forall k :: k in Keys(ids, Noise) <==> 0 <= k < clusters
    ensures forall k :: k in Keys(ids, Noise) ==> exists p :: p in Members(ids, k) && IsCore(nbr, n, t, p)
  {
    forall k | k in Keys(ids, Noise) ensures 0 <= k < clusters {
      var p :| 0 <= p < |ids| && ids[p] != Noise && ids[p] == k;
    }
    forall c: int | 0 <= c < clusters ensures c in Keys(ids, Noise) {
      assert HasCore(nbr, n, t, ids, c);
      var p :| 0 <= p < n && ids[p] == c && IsCore(nbr, n, t, p);
      assert ids[p] != Noise;
    }
    forall k | k in Keys(ids, Noise)
      ensures exists p :: p in Members(ids, k) && IsCore(nbr, n, t, p)
    {
      assert HasCore(nbr, n, t, ids, k);
      var p :| 0 <= p < n && ids[p] == k && IsCore(nbr, n, t, p);
      MembersExact(ids, k);
    }
  }

  /**
   * Clusters `n` points and groups them into poles, skipping NOISE: the
   * pole keys are exactly the cluster ids, and every pole holds the points
   * of its cluster, among them a core point.
   */
  method PoleGroups(n: nat, nbr: (nat, nat) -> bool, minPts: int)
    returns (ids: seq<int>, groups: map<int, seq<nat>>, clusters: nat)
    requires -0x8000_0000 <= minPts < 0x8000_0000
    ensures IsDbscanLabelling(nbr, n, Threshold(minPts), ids, clusters)
    ensures forall k :: k in groups <==> 0 <= k < clusters
    ensures forall k :: k in groups ==> groups[k] == Members(ids, k)
    ensures forall k :: k in groups ==> exists p :: p in groups[k] && IsCore(nbr, n, Threshold(minPts), p)
  {
    ids, clusters := Cluster(n, nbr, minPts);
    groups := GroupByLabel(ids, Noise);
    GroupsAreClusters(nbr, n, Threshold(minPts), ids, clusters);
  }
}
