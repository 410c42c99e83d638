/**
 * The point store: the fields of a loaded point set in octree order, the
 * octree over them, the inverse permutation used to address points by their
 * original index, and the per-leaf draw cursors.
 *
 * Collaborators whose code is not part of this model enter as function
 * parameters, with what the store relies on stated as preconditions:
 *  - the file loader's output (fields, point counts, offset);
 *  - the octree builder, which permutes the index array it is given;
 *  - the per-leaf draw count;
 *  - the view culling test;
 *  - the pick distance of each stored point and its lower bound over a box;
 *  - the per-leaf nearest-point search.
 */
module PointStore {
  import opened Geometry
  import opened Octree
  import opened Fields
  import opened Permutation
  import opened Patching
  import opened Walks
  import opened Picking

  /**
   * What the octree builder must return for a loaded file: given the identity
   * order of the `n` points and their positions, a permutation of that order
   * (the original index of each storage slot) and a well-formed tree over
   * `n` points.
   */
  ghost predicate BuildsTree(built: (Tree, seq<nat>), n: nat)
  {
    IsPermutation(built.1, n) && WellFormed(built.0, n)
  }

  /** The draw cursor of a new node: a leaf starts at its own range. */
  function InitialCursor(t: Tree): (c: seq<nat>)
    ensures |c| == |t.nodes|
  {
    seq(|t.nodes|, k requires 0 <= k < |t.nodes| =>
      if t.nodes[k].Leaf? then t.nodes[k].beginIndex else 0)
  }

  /** Every field with its elements put into storage order `order`. */
  function InOrder(loaded: seq<GeomField>, order: seq<nat>, n: nat): (r: seq<GeomField>)
    requires AllFit(loaded, n) && forall i :: 0 <= i < |order| ==> order[i] < n
    ensures |r| == |loaded|
    ensures forall g :: 0 <= g < |r| ==> r[g] == loaded[g].(data := Reorder(loaded[g].data, order))
  {
    seq(|loaded|, g requires 0 <= g < |loaded| => loaded[g].(data := Reorder(loaded[g].data, order)))
  }

  /**
   * Reordering by a permutation keeps every field's shape, and the inverse
   * permutation finds each original point's element in its storage slot.
   */
  lemma InOrderFinds(loaded: seq<GeomField>, order: seq<nat>, inds: seq<nat>, n: nat)
    requires AllFit(loaded, n) && IsPermutation(order, n)
    requires IsPermutation(inds, n) && forall v :: 0 <= v < n ==> order[inds[v]] == v
    ensures var r := InOrder(loaded, order, n);
      && AllFit(r, n)
      && (forall g :: 0 <= g < |r| ==> r[g].name == loaded[g].name && r[g].spec == loaded[g].spec)
      && forall g, o :: 0 <= g < |r| && 0 <= o < n ==> r[g].data[inds[o]] == loaded[g].data[o]
  {
  }

  /** Field for field, the names and element types agree. */
  ghost predicate SameSchema(fs: seq<GeomField>, loaded: seq<GeomField>)
  {
    && |fs| == |loaded|
    && forall f :: 0 <= f < |fs| ==> fs[f].name == loaded[f].name && fs[f].spec == loaded[f].spec
  }

  /** In every field, the element of original point `o` sits in storage slot `inds[o]`. */
  ghost predicate FindsOriginal(fs: seq<GeomField>, inds: seq<nat>, loaded: seq<GeomField>, n: nat)
    requires AllFit(fs, n) && AllFit(loaded, n) && |fs| == |loaded| && IsPermutation(inds, n)
  {
    forall f, o :: 0 <= f < |fs| && 0 <= o < n ==> fs[f].data[inds[o]] == loaded[f].data[o]
  }

  /** Puts the elements of every field into storage order `order`, field after field. */
  method ReorderFields(loaded: seq<GeomField>, order: seq<nat>, n: nat) returns (fs: seq<GeomField>)
    requires AllFit(loaded, n) && forall i :: 0 <= i < |order| ==> order[i] < n
    ensures fs == InOrder(loaded, order, n)
  {
    fs := loaded;
    var f := 0;
    while f < |fs|
      invariant 0 <= f <= |fs| == |loaded|
      invariant forall g :: 0 <= g < f ==> fs[g] == loaded[g].(data := Reorder(loaded[g].data, order))
      invariant forall g :: f <= g < |fs| ==> fs[g] == loaded[g]
    {
      fs := fs[f := fs[f].(data := Reorder(fs[f].data, order))];
      f := f + 1;
    }
  }

  /**
   * The fields, tree and inverse order are exactly those of the builder's
   * result for the identity order: the builder's tree, every field gathered
   * into the builder's order, and the slot of each original index.
   */
  ghost predicate BuiltOrder(loaded: seq<GeomField>, n: nat, pf: nat,
                             makeTree: (seq<nat>, seq<Elem>) -> (Tree, seq<nat>),
                             fs: seq<GeomField>, t: Tree, inv: seq<nat>)
    requires AllFit(loaded, n) && pf < |loaded| && BuildsTree(makeTree(Identity(n), loaded[pf].data), n)
  {
    var b := makeTree(Identity(n), loaded[pf].data);
    && t == b.0
    && fs == InOrder(loaded, b.1, n)
    && |inv| == n
    && forall i :: 0 <= i < n ==> inv[b.1[i]] == i
  }

  /**
   * Builds the octree from the identity order of the `n` loaded points and
   * their positions (field `pf`), puts every field into the order the builder
   * returns, and inverts that order.
   */
  method OrderPoints(loaded: seq<GeomField>, n: nat, totalPoints: nat, pf: nat,
                     makeTree: (seq<nat>, seq<Elem>) -> (Tree, seq<nat>))
    returns (fs: seq<GeomField>, t: Tree, inv: seq<nat>)
    requires AllFit(loaded, n) && pf < |loaded| && n <= totalPoints
    requires totalPoints > 0 ==> BuildsTree(makeTree(Identity(n), loaded[pf].data), n)
    ensures AllFit(fs, n) && SameSchema(fs, loaded) && WellFormed(t, n) && IsPermutation(inv, n)
    ensures FindsOriginal(fs, inv, loaded, n)
    ensures totalPoints == 0 ==> fs == loaded && t == EmptyTree() && inv == []
    ensures totalPoints > 0 ==> BuiltOrder(loaded, n, pf, makeTree, fs, t, inv)
  {
    if totalPoints == 0 {
      // A file without points gets an empty root.
      fs, t, inv := loaded, EmptyTree(), [];
      return;
    }
    // The index array starts as the identity.
    var a := new nat[n];
    var i := 0;
    while i < n
      invariant 0 <= i <= n
      invariant forall j :: 0 <= j < i ==> a[j] == j
    {
      a[i] := i;
      i := i + 1;
    }
    var order := a[..];
    assert order == Identity(n);
    var built := makeTree(order, loaded[pf].data);
    t, order := built.0, built.1;
    fs := ReorderFields(loaded, order, n);
    inv := InvertPermutation(order, n);
    InOrderFinds(loaded, order, inv, n);
  }

  /**
   * The loading steps after the file loader: fails when the loader failed or
   * no field is a position field; otherwise the fields come back in octree
   * order, with the octree and the inverse permutation.
   */
  method FinishLoad(loaderOk: bool, loaded: seq<GeomField>, n: nat, totalPoints: nat,
                    makeTree: (seq<nat>, seq<Elem>) -> (Tree, seq<nat>))
    returns (ok: bool, fs: seq<GeomField>, pf: int, t: Tree, inv: seq<nat>)
    requires loaderOk ==> AllFit(loaded, n) && n <= totalPoints
    requires loaderOk && FirstPosition(loaded) >= 0 && totalPoints > 0 ==>
      BuildsTree(makeTree(Identity(n), loaded[FirstPosition(loaded)].data), n)
    ensures ok <==> loaderOk && FirstPosition(loaded) >= 0
    ensures loaderOk ==> pf == FirstPosition(loaded) && SameSchema(fs, loaded)
    ensures loaderOk && !ok ==> fs == loaded
    ensures ok ==> AllFit(fs, n) && 0 <= pf < |fs| && IsPositionField(fs[pf]) && WellFormed(t, n) && IsPermutation(inv, n)
    ensures ok ==> FindsOriginal(fs, inv, loaded, n)
    ensures ok && totalPoints == 0 ==> fs == loaded && t == EmptyTree() && inv == []
    ensures ok && totalPoints > 0 ==> BuiltOrder(loaded, n, pf, makeTree, fs, t, inv)
  {
    fs, t, inv := loaded, EmptyTree(), [];
    if !loaderOk {
      return false, fs, -1, t, inv;
    }
    pf := FindPositionField(loaded);
    if pf == -1 {
      return false, fs, pf, t, inv;
    }
    fs, t, inv := OrderPoints(loaded, n, totalPoints, pf, makeTree);
    ok := true;
  }

  class PointArray {
    var fields: seq<GeomField>
    var npoints: nat
    /** Index of the position field in `fields`, or -1. */
    var positionField: int
    var offset: Vec3
    /** Whether the octree root exists. */
    var hasTree: bool
    var tree: Tree
    /** Storage slot of each point, by original index (the inverse of the octree order). */
    var inds: seq<nat>
    /** The next storage index each leaf draws from. */
    var cursor: seq<nat>

    /** A store that has never loaded a file. */
    ghost predicate Unloaded()
      reads this
    {
      fields == [] && npoints == 0 && positionField == -1 && !hasTree && inds == [] && cursor == []
    }

    /** A store whose file loaded successfully. */
    ghost predicate Valid()
      reads this
    {
      && AllFit(fields, npoints)
      && 0 <= positionField < |fields| && IsPositionField(fields[positionField])
      && hasTree && WellFormed(tree, npoints) && |cursor| == |tree.nodes|
      && IsPermutation(inds, npoints)
    }

    constructor()
      ensures Unloaded()
    {
      fields, npoints, positionField, offset := [], 0, -1, Origin;
      hasTree, tree, inds, cursor := false, Tree([]), [], [];
    }

    /** The world position of stored point `i`: its position element plus the offset. */
    function WorldPosition(i: nat): (v: Vec3)
      reads this
      requires Valid() && i < npoints
      ensures Sub(v, offset) ==
        Vec3(fields[positionField].data[i][0], fields[positionField].data[i][1], fields[positionField].data[i][2])
    {
      StoredPosition(fields[positionField].data[i], offset)
    }

    /** Stores a finished load: the fields in storage order, the tree, fresh cursors and the index map. */
    method Install(fs: seq<GeomField>, n: nat, pf: nat, off: Vec3, t: Tree, inv: seq<nat>)
      requires AllFit(fs, n) && pf < |fs| && IsPositionField(fs[pf])
      requires WellFormed(t, n) && IsPermutation(inv, n)
      modifies this
      ensures fields == fs && npoints == n && positionField == pf && offset == off
      ensures hasTree && tree == t && cursor == InitialCursor(t) && inds == inv
      ensures Valid()
    {
      fields, npoints, positionField, offset := fs, n, pf, off;
      hasTree, tree, cursor, inds := true, t, InitialCursor(t), inv;
    }

    /**
     * Takes the output of a file loader and finishes loading: finds the
     * position field, builds the octree (an empty root when the file has no
     * points), stores every field in octree order and records the inverse
     * permutation.
     */
    method LoadFile(loaderOk: bool, loaded: seq<GeomField>, n: nat, totalPoints: nat, fileOffset: Vec3,
                    makeTree: (seq<nat>, seq<Elem>) -> (Tree, seq<nat>)) returns (ok: bool)
      requires Unloaded()
      requires loaderOk ==> AllFit(loaded, n) && n <= totalPoints
      requires loaderOk && FirstPosition(loaded) >= 0 && totalPoints > 0 ==>
        BuildsTree(makeTree(Identity(n), loaded[FirstPosition(loaded)].data), n)
      modifies this
      ensures ok <==> loaderOk && FirstPosition(loaded) >= 0
      ensures !loaderOk ==> Unloaded()
      ensures loaderOk ==> npoints == n && positionField == FirstPosition(loaded) && SameSchema(fields, loaded)
      ensures loaderOk && !ok ==> !hasTree && fields == loaded
      ensures ok ==> Valid() && offset == fileOffset && FindsOriginal(fields, inds, loaded, npoints)
      ensures ok && totalPoints == 0 ==> fields == loaded && tree == EmptyTree() && inds == []
      ensures ok && totalPoints > 0 ==> BuiltOrder(loaded, n, positionField, makeTree, fields, tree, inds)
      ensures ok ==> cursor == InitialCursor(tree)
    {
      var fs, pf, t, inv;
      ok, fs, pf, t, inv := FinishLoad(loaderOk, loaded, n, totalPoints, makeTree);
      if ok {
        Install(fs, n, pf, fileOffset, t, inv);
      } else if loaderOk {
        fields, npoints, positionField := fs, n, pf;
      }
    }

    /**
     * Applies a patch addressed by original point index. The whole patch is
     * rejected when the store has more than 2^32 - 1 points or any index is
     * out of range.
     */
    method Mutate(p: Patch)
      requires PatchWellFormed(p)
      requires AllFit(fields, npoints) && IsPermutation(inds, npoints)
      modifies this
      ensures npoints == old(npoints) && inds == old(inds) && offset == old(offset)
      ensures fields == Mutated(old(fields), inds, npoints, offset, p)
      ensures positionField == old(positionField) && hasTree == old(hasTree)
      ensures tree == old(tree) && cursor == old(cursor)
      ensures old(Valid()) ==> Valid()
    {
      MutatedKeepsShape(fields, inds, npoints, offset, p);
      fields := ApplyPatch(fields, inds, npoints, offset, p);
    }

    /**
     * Best-first search for the point nearest to the pick ray: nodes are taken
     * from a queue in order of their distance bound until the next bound
     * exceeds the best distance found. `leaves` and `scans` record the leaves
     * searched, in order, and what each search returned.
     */
    method PickVertex(bound: Box -> real, dist: nat -> real, findNearest: (nat, nat) -> (nat, real))
      returns (found: bool, vertex: Vec3, distance: real, index: nat,
               ghost leaves: seq<NodeId>, ghost scans: seq<(nat, real)>)
      requires Valid() || npoints == 0
      requires Valid() ==> BoundsBelow(tree, offset, bound, dist)
      requires FindsNearest(findNearest, dist)
      ensures found <==> exists p :: 0 <= p < npoints && dist(p) < DblMax
      ensures found ==> Valid() && index < npoints && distance == dist(index) && vertex == WorldPosition(index)
      ensures found ==> forall p :: 0 <= p < npoints ==> distance <= dist(p)
      ensures Scanned(tree, leaves, scans, findNearest)
      ensures found ==> exists i :: FirstBestAt(scans, i, index, distance)
    {
      if npoints == 0 {
        return false, Origin, 0.0, 0, [], [];
      }
      var closestIdx, closestDist;
      closestIdx, closestDist, leaves, scans := NearestPoint(tree, npoints, offset, bound, dist, findNearest);
      if closestDist == DblMax {
        return false, Origin, 0.0, 0, leaves, scans;
      }
      return true, WorldPosition(closestIdx), closestDist, closestIdx, leaves, scans;
    }

    /**
     * Adds, for each of the first `numEstimates` qualities, the draw counts of
     * the leaves the view does not cull onto the matching entry of `drawCounts`.
     */
    method EstimateCost(cull: Box -> bool, inc: bool, qualities: seq<real>, drawCounts: array<nat>,
                        numEstimates: int, dc: (Node, nat, real, bool) -> nat)
      requires Valid()
      requires numEstimates <= |qualities| && numEstimates <= drawCounts.Length
      modifies drawCounts
      ensures forall i :: 0 <= i < drawCounts.Length ==>
        drawCounts[i] == old(drawCounts[i]) +
          (if i < numEstimates then Cost(tree, cursor, qualities[i], inc, cull, dc) else 0)
    {
      EstimateWalk(tree, cursor, cull, inc, qualities, drawCounts, numEstimates, dc);
    }
 
    /**
     * Draws the leaves the view does not cull, each from its draw cursor, and
     * returns the number of points drawn. The cursors advance as the walk
     * goes; nothing else changes.
     */
    method DrawPoints(q: real, inc: bool, cull: Box -> bool, dc: (Node, nat, real, bool) -> nat)
      returns (total: nat)
      requires Valid()
      modifies this
      ensures fields == old(fields) && npoints == old(npoints) && positionField == old(positionField)
      ensures offset == old(offset) && hasTree == old(hasTree) && tree == old(tree) && inds == old(inds)
      ensures ValidIds(tree, [Root])
      ensures (cursor, total) == DrawWalk(tree, VisitAll(tree, [Root], cull), old(cursor), q, inc, cull, dc, |fields| >= 1)
      ensures forall k :: 0 <= k < |tree.nodes| ==>
        cursor[k] == if k in VisitAll(tree, [Root], cull) && KeptLeaf(tree, k, cull)
                     then NextCursor(tree.nodes[k], old(cursor)[k], q, inc, dc, |fields| >= 1) else old(cursor)[k]
      ensures inc ==> total == Cost(tree, old(cursor), q, true, cull, dc)
      ensures Valid()
    {
      RootDraw(tree, npoints, cursor, q, inc, cull, dc, |fields| >= 1);
      cursor, total := DrawLoop(tree, cursor, q, inc, cull, dc, |fields| >= 1);
    }

    /**
     * The stored points whose classification equals `target`, leaf after leaf
     * in walk order, each with its world position and storage index; nothing
     * when there is no field called "classification" or no octree.
     */
    method GetPointsByClassification(target: Byte) returns (r: seq<ClassifiedPoint>)
      requires hasTree ==> Valid()
      ensures FirstNamed(fields, "classification") < 0 || !hasTree ==> r == []
      ensures FirstNamed(fields, "classification") >= 0 && hasTree ==>
        var cls := fields[FirstNamed(fields, "classification")].data;
        && Indices(r) == ClassMatches(tree, VisitAll(tree, [Root], NoCull), cls, target)
        && Located(r, fields[positionField].data, offset)
        && forall x: nat :: x in Indices(r) <==> x < |cls| && ClassOf(cls[x]) == target as real
    {
      var k := FindField(fields, "classification");
      if k == -1 || !hasTree {
        return [];
      }
      var cls := fields[k].data;
      assert FieldFits(fields[k], npoints) && FieldFits(fields[positionField], npoints);
      assert ClassReadable(tree, cls);
      r := ClassWalk(tree, cls, fields[positionField].data, offset, target);
      forall x: nat ensures x in Indices(r) <==> x < |cls| && ClassOf(cls[x]) == target as real {
        ClassWalkExact(tree, cls, target, x);
      }
    }
  }
}
