/**
 * Permutations of the point indices [0, n), and the inverse that the point
 * store keeps so that edits addressed by original index find their storage slot.
 */
module Permutation {

  /** `p` lists every index below `n` exactly once. */
  ghost predicate IsPermutation(p: seq<nat>, n: nat)
  {
    && |p| == n
    && (forall i :: 0 <= i < n ==> p[i] < n)
    && (forall i, j :: 0 <= i < j < n ==> p[i] != p[j])
    && (forall v :: 0 <= v < n ==> v in p)
  }

  /** The identity order [0, 1, ..., n - 1]. */
  function Identity(n: nat): (p: seq<nat>)
    ensures |p| == n && forall i :: 0 <= i < n ==> p[i] == i
  {
    seq(n, i => i)
  }

  lemma IdentityIsPermutation(n: nat)
    ensures IsPermutation(Identity(n), n)
  {
    var p := Identity(n);
    forall v | 0 <= v < n ensures v in p {
      assert p[v] == v;
    }
  }

  /**
   * Builds `inv` with `inv[perm[i]] == i` by one pass over `perm`: the inverse
   * of the octree order, mapping an original index to its storage slot.
   */
  method InvertPermutation(perm: seq<nat>, n: nat) returns (inv: seq<nat>)
    requires IsPermutation(perm, n)
    ensures IsPermutation(inv, n)
    ensures forall i :: 0 <= i < n ==> inv[perm[i]] == i
    ensures forall v :: 0 <= v < n ==> perm[inv[v]] == v
  {
    var a := new nat[n];
    var i := 0;
    while i < n
      invariant 0 <= i <= n
      invariant forall j :: 0 <= j < i ==> a[perm[j]] == j
    {
      a[perm[i]] := i;
      i := i + 1;
    }
    inv := a[..];
    forall v | 0 <= v < n ensures inv[v] < n && perm[inv[v]] == v {
      assert v in perm;
      var j :| 0 <= j < |perm| && perm[j] == v;
      assert inv[perm[j]] == j;
    }
    forall v, w | 0 <= v < w < n ensures inv[v] != inv[w] {
      assert perm[inv[v]] == v && perm[inv[w]] == w;
    }
    forall v | 0 <= v < n ensures v in inv {
      assert inv[perm[v]] == v;
    }
  }
}
