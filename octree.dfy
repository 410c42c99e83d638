/**
 * The octree over a point set, as an arena of nodes addressed by index.
 *
 * Node 0 is the root. An internal node lists its non-null children in slot
 * order (slot 0 first); a leaf owns the contiguous storage range
 * [beginIndex, endIndex) of the permuted point arrays. Children always have a
 * larger index than their parent, which makes every walk terminate.
 *
 * The traversals of the point store pop an explicit stack: the children of a
 * node are pushed in slot order, so the child in the last slot is visited
 * first. `Visit` and `VisitAll` give the exact sequence of nodes such a walk
 * pops, including nodes it then skips because the culling test rejects them.
 */
module Octree {
  import opened Geometry
  import opened Seqs

  type NodeId = nat

  datatype Node =
    | Leaf(bbox: Box, beginIndex: nat, endIndex: nat)
    | Internal(bbox: Box, children: seq<NodeId>)

  datatype Tree = Tree(nodes: seq<Node>)

  const Root: NodeId := 0

  /** The culling test of a walk that prunes nothing. */
  function NoCull(b: Box): bool { false }

  /** Every child index is larger than its parent's and inside the arena. */
  ghost predicate Ordered(t: Tree)
  {
    forall k, i :: 0 <= k < |t.nodes| && t.nodes[k].Internal? && 0 <= i < |t.nodes[k].children| ==>
      k < t.nodes[k].children[i] < |t.nodes|
  }

  ghost predicate ValidIds(t: Tree, s: seq<NodeId>)
  {
    forall i :: 0 <= i < |s| ==> s[i] < |t.nodes|
  }

  function ChildCount(t: Tree, k: NodeId): nat
    requires k < |t.nodes|
  {
    if t.nodes[k].Internal? then |t.nodes[k].children| else 0
  }

  /** Is node `k` popped and then left without expanding (a leaf, or culled)? */
  predicate Stops(t: Tree, k: NodeId, cull: Box -> bool)
    requires k < |t.nodes|
  {
    t.nodes[k].Leaf? || cull(t.nodes[k].bbox)
  }

  /**
   * The nodes a stack walk started on `k` pops, in popping order.
   */
  ghost function Visit(t: Tree, k: NodeId, cull: Box -> bool): (vs: seq<NodeId>)
    requires Ordered(t) && k < |t.nodes|
    ensures |vs| >= 1 && vs[0] == k
    ensures forall i :: 0 <= i < |vs| ==> k <= vs[i] < |t.nodes|
    decreases |t.nodes| - k, ChildCount(t, k) + 1
  {
    [k] + (if Stops(t, k, cull) then [] else VisitKids(t, k, |t.nodes[k].children|, cull))
  }

  /** The nodes popped below the first `m` children of internal node `k`. */
  ghost function VisitKids(t: Tree, k: NodeId, m: nat, cull: Box -> bool): (vs: seq<NodeId>)
    requires Ordered(t) && k < |t.nodes| && t.nodes[k].Internal? && m <= |t.nodes[k].children|
    ensures forall i :: 0 <= i < |vs| ==> k < vs[i] < |t.nodes|
    decreases |t.nodes| - k, m
  {
    if m == 0 then []
    else Visit(t, t.nodes[k].children[m - 1], cull) + VisitKids(t, k, m - 1, cull)
  }

  /** The nodes popped by a walk whose stack holds `stack` (top = last). */
  ghost function VisitAll(t: Tree, stack: seq<NodeId>, cull: Box -> bool): (vs: seq<NodeId>)
    requires Ordered(t) && ValidIds(t, stack)
    ensures ValidIds(t, vs)
    ensures |vs| >= |stack|
  {
    if |stack| == 0 then []
    else Visit(t, stack[|stack| - 1], cull) + VisitAll(t, stack[..|stack| - 1], cull)
  }

  /** Pushing the children of `k` schedules exactly what `Visit` expands below `k`. */
  lemma {:induction false} VisitKidsIsVisitAll(t: Tree, k: NodeId, m: nat, cull: Box -> bool)
    requires Ordered(t) && k < |t.nodes| && t.nodes[k].Internal? && m <= |t.nodes[k].children|
    ensures ValidIds(t, t.nodes[k].children[..m])
    ensures VisitKids(t, k, m, cull) == VisitAll(t, t.nodes[k].children[..m], cull)
  {
    var ch := t.nodes[k].children;
    if m > 0 {
      VisitKidsIsVisitAll(t, k, m - 1, cull);
      assert ch[..m][..m - 1] == ch[..m - 1];
    }
  }

  /** The part of a stack below `a` is walked after everything pushed above it. */
  lemma {:induction false} VisitAllAppend(t: Tree, a: seq<NodeId>, b: seq<NodeId>, cull: Box -> bool)
    requires Ordered(t) && ValidIds(t, a) && ValidIds(t, b)
    ensures ValidIds(t, a + b)
    ensures VisitAll(t, a + b, cull) == VisitAll(t, b, cull) + VisitAll(t, a, cull)
  {
    if |b| > 0 {
      var b' := b[..|b| - 1];
      assert (a + b)[..|a + b| - 1] == a + b';
      VisitAllAppend(t, a, b', cull);
    } else {
      assert a + b == a;
    }
  }

  /**
   * One step of a stack walk: popping the top `k` of `rest + [k]` and, unless it
   * stops there, pushing its children, leaves exactly the rest of the walk to do.
   */
  lemma PopStep(t: Tree, rest: seq<NodeId>, k: NodeId, cull: Box -> bool)
    requires Ordered(t) && ValidIds(t, rest) && k < |t.nodes|
    ensures ValidIds(t, rest + [k])
    ensures Stops(t, k, cull) ==> VisitAll(t, rest + [k], cull) == [k] + VisitAll(t, rest, cull)
    ensures !Stops(t, k, cull) ==>
      ValidIds(t, rest + t.nodes[k].children) &&
      VisitAll(t, rest + [k], cull) == [k] + VisitAll(t, rest + t.nodes[k].children, cull)
  {
    VisitAllSnoc(t, rest, k, cull);
    if !Stops(t, k, cull) {
      var ch := t.nodes[k].children;
      VisitExpand(t, k, cull);
      VisitAllAppend(t, rest, ch, cull);
      ConcatAssoc([k], VisitAll(t, ch, cull), VisitAll(t, rest, cull));
    }
  }

  /** The top of a stack is walked first, then the rest of it. */
  lemma VisitAllSnoc(t: Tree, rest: seq<NodeId>, k: NodeId, cull: Box -> bool)
    requires Ordered(t) && ValidIds(t, rest) && k < |t.nodes|
    ensures ValidIds(t, rest + [k])
    ensures VisitAll(t, rest + [k], cull) == Visit(t, k, cull) + VisitAll(t, rest, cull)
  {
    var s := rest + [k];
    assert s[..|s| - 1] == rest;
  }

  /** A node the walk expands is followed by the walk of its pushed children. */
  lemma VisitExpand(t: Tree, k: NodeId, cull: Box -> bool)
    requires Ordered(t) && k < |t.nodes| && !Stops(t, k, cull)
    ensures ValidIds(t, t.nodes[k].children)
    ensures Visit(t, k, cull) == [k] + VisitAll(t, t.nodes[k].children, cull)
  {
    var ch := t.nodes[k].children;
    VisitKidsIsVisitAll(t, k, |ch|, cull);
    assert ch[..|ch|] == ch;
  }

  /** The stack after popping `k` from `rest + [k]`: its children are pushed unless the walk stops at it. */
  function Pushed(t: Tree, rest: seq<NodeId>, k: NodeId, cull: Box -> bool): seq<NodeId>
    requires k < |t.nodes|
  {
    if Stops(t, k, cull) then rest else rest + t.nodes[k].children
  }

  /** Popping `k` from `rest + [k]` pops it first and leaves the strictly shorter walk of the pushed stack. */
  lemma PopWalk(t: Tree, rest: seq<NodeId>, k: NodeId, cull: Box -> bool)
    requires Ordered(t) && ValidIds(t, rest) && k < |t.nodes|
    ensures ValidIds(t, rest + [k]) && ValidIds(t, Pushed(t, rest, k, cull))
    ensures VisitAll(t, rest + [k], cull) == [k] + VisitAll(t, Pushed(t, rest, k, cull), cull)
    ensures |VisitAll(t, Pushed(t, rest, k, cull), cull)| < |VisitAll(t, rest + [k], cull)|
  {
    PopStep(t, rest, k, cull);
  }

  /** A walk started from the root alone pops exactly the root's walk. */
  lemma RootStack(t: Tree, cull: Box -> bool)
    requires Ordered(t) && |t.nodes| > 0
    ensures ValidIds(t, [Root])
    ensures VisitAll(t, [Root], cull) == Visit(t, Root, cull)
  {
    assert [Root][..0] == [];
  }

  /** The indices in [b, e). */
  function Range(b: nat, e: nat): (r: set<nat>)
    ensures forall p :: p in r <==> b <= p < e
    decreases e
  {
    if e <= b then {} else Range(b, e - 1) + {e - 1}
  }

  /** The storage indices owned by the leaves among `vs`. */
  ghost function LeafPoints(t: Tree, vs: seq<NodeId>): set<nat>
    requires ValidIds(t, vs)
  {
    if |vs| == 0 then {}
    else
      (match t.nodes[vs[0]]
       case Leaf(_, b, e) => Range(b, e)
       case Internal(_, _) => {})
      + LeafPoints(t, vs[1..])
  }

  lemma {:induction false} LeafPointsAppend(t: Tree, a: seq<NodeId>, b: seq<NodeId>)
    requires ValidIds(t, a) && ValidIds(t, b)
    ensures ValidIds(t, a + b)
    ensures LeafPoints(t, a + b) == LeafPoints(t, a) + LeafPoints(t, b)
  {
    if |a| > 0 {
      assert (a + b)[1..] == a[1..] + b;
      LeafPointsAppend(t, a[1..], b);
    } else {
      assert a + b == b;
    }
  }

  /** A point lies in `LeafPoints` exactly when some leaf among `vs` owns it. */
  lemma {:induction false} LeafPointsMember(t: Tree, vs: seq<NodeId>, p: nat)
    requires ValidIds(t, vs)
    ensures p in LeafPoints(t, vs) <==>
      exists i :: 0 <= i < |vs| && t.nodes[vs[i]].Leaf? &&
        t.nodes[vs[i]].beginIndex <= p < t.nodes[vs[i]].endIndex
  {
    if |vs| > 0 {
      LeafPointsMember(t, vs[1..], p);
      if p in LeafPoints(t, vs[1..]) {
        var i :| 0 <= i < |vs[1..]| && t.nodes[vs[1..][i]].Leaf? &&
          t.nodes[vs[1..][i]].beginIndex <= p < t.nodes[vs[1..][i]].endIndex;
        assert vs[1..][i] == vs[i + 1];
      }
      if exists i :: 0 <= i < |vs| && t.nodes[vs[i]].Leaf? &&
           t.nodes[vs[i]].beginIndex <= p < t.nodes[vs[i]].endIndex {
        var i :| 0 <= i < |vs| && t.nodes[vs[i]].Leaf? &&
          t.nodes[vs[i]].beginIndex <= p < t.nodes[vs[i]].endIndex;
        if i > 0 { assert vs[1..][i - 1] == vs[i]; }
      }
    }
  }

  /** The storage indices in the subtree of `k`. */
  ghost function Points(t: Tree, k: NodeId): set<nat>
    requires Ordered(t) && k < |t.nodes|
  {
    LeafPoints(t, Visit(t, k, NoCull))
  }

  /** The points an uncut walk over `stack` reaches: those below its nodes. */
  ghost function StackPoints(t: Tree, stack: seq<NodeId>): set<nat>
    requires Ordered(t) && ValidIds(t, stack)
  {
    LeafPoints(t, VisitAll(t, stack, NoCull))
  }

  /** A point lies below some node of a stack exactly when it lies below one of its entries. */
  lemma {:induction false} StackPointsMember(t: Tree, q: seq<NodeId>, p: nat)
    requires Ordered(t) && ValidIds(t, q)
    ensures p in StackPoints(t, q) <==> exists i :: 0 <= i < |q| && p in Points(t, q[i])
  {
    if |q| > 0 {
      var last, init := q[|q| - 1], q[..|q| - 1];
      LeafPointsAppend(t, Visit(t, last, NoCull), VisitAll(t, init, NoCull));
      StackPointsMember(t, init, p);
      if exists i :: 0 <= i < |init| && p in Points(t, init[i]) {
        var i :| 0 <= i < |init| && p in Points(t, init[i]);
        assert q[i] == init[i];
      }
      if exists i :: 0 <= i < |q| && p in Points(t, q[i]) {
        var i :| 0 <= i < |q| && p in Points(t, q[i]);
        if i < |q| - 1 { assert init[i] == q[i]; }
      }
    }
  }

  /** The walk of a queue is the walk of entry `i` spliced between the walks of the entries around it. */
  lemma RemoveEntry(t: Tree, q: seq<NodeId>, i: nat)
    requires Ordered(t) && ValidIds(t, q) && i < |q|
    ensures ValidIds(t, q[..i] + q[i + 1..])
    ensures VisitAll(t, q, NoCull) ==
      VisitAll(t, q[i + 1..], NoCull) + Visit(t, q[i], NoCull) + VisitAll(t, q[..i], NoCull)
    ensures VisitAll(t, q[..i] + q[i + 1..], NoCull) == VisitAll(t, q[i + 1..], NoCull) + VisitAll(t, q[..i], NoCull)
  {
    var k, a, b := q[i], q[..i], q[i + 1..];
    assert q == (a + [k]) + b;
    VisitAllAppend(t, a + [k], b, NoCull);
    VisitAllSnoc(t, a, k, NoCull);
    ConcatAssoc(VisitAll(t, b, NoCull), Visit(t, k, NoCull), VisitAll(t, a, NoCull));
    VisitAllAppend(t, a, b, NoCull);
  }

  /** The points below a node: a leaf's own range, or the points below its children. */
  lemma PointsOfNode(t: Tree, k: NodeId)
    requires Ordered(t) && k < |t.nodes|
    ensures t.nodes[k].Leaf? ==> Points(t, k) == Range(t.nodes[k].beginIndex, t.nodes[k].endIndex)
    ensures t.nodes[k].Internal? ==>
      ValidIds(t, t.nodes[k].children) &&
      Visit(t, k, NoCull) == [k] + VisitAll(t, t.nodes[k].children, NoCull) &&
      Points(t, k) == StackPoints(t, t.nodes[k].children)
  {
    var vk := Visit(t, k, NoCull);
    if t.nodes[k].Leaf? {
      assert vk == [k];
      assert LeafPoints(t, vk) == Range(t.nodes[k].beginIndex, t.nodes[k].endIndex) + LeafPoints(t, []);
    } else {
      var ch := t.nodes[k].children;
      PopStep(t, [], k, NoCull);
      assert [] + [k] == [k] && [] + ch == ch;
      assert [k][..0] == [];
      assert vk == [k] + VisitAll(t, ch, NoCull);
      assert LeafPoints(t, vk) == LeafPoints(t, VisitAll(t, ch, NoCull));
    }
  }

  /**
   * Taking entry `i` out of the queue of a best-first search leaves a walk
   * shorter by the entry's own walk, over the same points less those below it.
   */
  lemma QueueTake(t: Tree, q: seq<NodeId>, i: nat)
    requires Ordered(t) && ValidIds(t, q) && i < |q|
    ensures ValidIds(t, q[..i] + q[i + 1..])
    ensures |VisitAll(t, q, NoCull)| == |VisitAll(t, q[..i] + q[i + 1..], NoCull)| + |Visit(t, q[i], NoCull)|
    ensures StackPoints(t, q) == StackPoints(t, q[..i] + q[i + 1..]) + Points(t, q[i])
  {
    var k, a, b := q[i], q[..i], q[i + 1..];
    RemoveEntry(t, q, i);
    var vk, va, vb := Visit(t, k, NoCull), VisitAll(t, a, NoCull), VisitAll(t, b, NoCull);
    var pk, pa, pb := LeafPoints(t, vk), LeafPoints(t, va), LeafPoints(t, vb);
    assert StackPoints(t, q) == pb + pk + pa by {
      LeafPointsAppend(t, vb + vk, va);
      LeafPointsAppend(t, vb, vk);
    }
    assert StackPoints(t, a + b) == pb + pa by {
      LeafPointsAppend(t, vb, va);
    }
  }

  /**
   * Taking internal entry `i` out of the queue and queueing its children
   * leaves a strictly shorter walk over the same points.
   */
  lemma QueueExpand(t: Tree, q: seq<NodeId>, i: nat)
    requires Ordered(t) && ValidIds(t, q) && i < |q| && t.nodes[q[i]].Internal?
    ensures var rest' := q[..i] + q[i + 1..] + t.nodes[q[i]].children;
      && ValidIds(t, rest')
      && |VisitAll(t, rest', NoCull)| < |VisitAll(t, q, NoCull)|
      && StackPoints(t, q) == StackPoints(t, rest')
  {
    var k, rest, ch := q[i], q[..i] + q[i + 1..], t.nodes[q[i]].children;
    QueueTake(t, q, i);
    PointsOfNode(t, k);
    VisitAllAppend(t, rest, ch, NoCull);
    LeafPointsAppend(t, VisitAll(t, ch, NoCull), VisitAll(t, rest, NoCull));
  }

  /** Each node fills at most one child slot of the tree: a node has a single parent. */
  ghost predicate Owned(t: Tree)
  {
    forall k1, i1, k2, i2 ::
      && 0 <= k1 < |t.nodes| && 0 <= k2 < |t.nodes| && t.nodes[k1].Internal? && t.nodes[k2].Internal?
      && 0 <= i1 < |t.nodes[k1].children| && 0 <= i2 < |t.nodes[k2].children|
      && t.nodes[k1].children[i1] == t.nodes[k2].children[i2]
      ==> k1 == k2 && i1 == i2
  }

  lemma OwnedSlot(t: Tree, k1: NodeId, i1: nat, k2: NodeId, i2: nat)
    requires Owned(t) && k1 < |t.nodes| && k2 < |t.nodes| && t.nodes[k1].Internal? && t.nodes[k2].Internal?
    requires i1 < |t.nodes[k1].children| && i2 < |t.nodes[k2].children|
    requires t.nodes[k1].children[i1] == t.nodes[k2].children[i2]
    ensures k1 == k2 && i1 == i2
  {
  }

  /** A node popped below the first `m` children of `k` is popped below one of them. */
  lemma {:induction false} KidOf(t: Tree, k: NodeId, m: nat, x: NodeId, cull: Box -> bool) returns (j: nat)
    requires Ordered(t) && k < |t.nodes| && t.nodes[k].Internal? && m <= |t.nodes[k].children|
    requires x in VisitKids(t, k, m, cull)
    ensures j < m && x in Visit(t, t.nodes[k].children[j], cull)
    decreases m
  {
    if x in Visit(t, t.nodes[k].children[m - 1], cull) {
      j := m - 1;
    } else {
      j := KidOf(t, k, m - 1, x, cull);
    }
  }

  /** Everything popped below one of the first `m` children of `k` is popped below them. */
  lemma {:induction false} KidInKids(t: Tree, k: NodeId, m: nat, j: nat, x: NodeId, cull: Box -> bool)
    requires Ordered(t) && k < |t.nodes| && t.nodes[k].Internal? && j < m <= |t.nodes[k].children|
    requires x in Visit(t, t.nodes[k].children[j], cull)
    ensures x in VisitKids(t, k, m, cull)
    decreases m
  {
    if j < m - 1 {
      KidInKids(t, k, m - 1, j, x, cull);
    }
  }

  /**
   * Every node popped below `a`, other than `a` itself, fills a child slot of
   * a node that is also popped below `a`.
   */
  lemma {:induction false} VisitParent(t: Tree, a: NodeId, x: NodeId, cull: Box -> bool) returns (p: NodeId, i: nat)
    requires Ordered(t) && a < |t.nodes| && x in Visit(t, a, cull) && x != a
    ensures p < |t.nodes| && t.nodes[p].Internal? && i < |t.nodes[p].children| && t.nodes[p].children[i] == x
    ensures p in Visit(t, a, cull)
    decreases |t.nodes| - a
  {
    var m := ChildCount(t, a);
    assert !Stops(t, a, cull);
    var ch := t.nodes[a].children;
    assert x in VisitKids(t, a, m, cull);
    var j := KidOf(t, a, m, x, cull);
    if x == ch[j] {
      p, i := a, j;
    } else {
      p, i := VisitParent(t, ch[j], x, cull);
      KidInKids(t, a, m, j, p, cull);
    }
  }

  /**
   * In a tree where every node has a single parent, two walks that pop a
   * common node are nested: the later-numbered start is popped by the other.
   */
  lemma {:induction false} Nested(t: Tree, a: NodeId, b: NodeId, x: NodeId, cull: Box -> bool)
    requires Ordered(t) && Owned(t) && a <= b < |t.nodes|
    requires x in Visit(t, a, cull) && x in Visit(t, b, cull)
    ensures b in Visit(t, a, cull)
    decreases x
  {
    if x != b {
      var p, i := VisitParent(t, a, x, cull);
      var p', i' := VisitParent(t, b, x, cull);
      OwnedSlot(t, p, i, p', i');
      Nested(t, a, b, p, cull);
    }
  }

  /** The walks below two different child slots of a node pop no common node. */
  lemma SubtreesDisjoint(t: Tree, k: NodeId, i: nat, j: nat, x: NodeId, cull: Box -> bool)
    requires Ordered(t) && Owned(t) && k < |t.nodes| && t.nodes[k].Internal?
    requires i < |t.nodes[k].children| && j < |t.nodes[k].children| && i != j
    requires x in Visit(t, t.nodes[k].children[i], cull)
    ensures x !in Visit(t, t.nodes[k].children[j], cull)
  {
    var ch := t.nodes[k].children;
    if x in Visit(t, ch[j], cull) {
      if ch[i] == ch[j] {
        OwnedSlot(t, k, i, k, j);
      }
      var lo, hi := if ch[i] < ch[j] then ch[i] else ch[j], if ch[i] < ch[j] then ch[j] else ch[i];
      Nested(t, lo, hi, x, cull);
      var p, s := VisitParent(t, lo, hi, cull);
      assert false;
    }
  }

  ghost predicate Distinct(vs: seq<NodeId>)
  {
    forall i, j :: 0 <= i < j < |vs| ==> vs[i] != vs[j]
  }

  lemma DistinctConcat(a: seq<NodeId>, b: seq<NodeId>)
    requires Distinct(a) && Distinct(b) && forall x :: x in a ==> x !in b
    ensures Distinct(a + b)
  {
    forall i, j | 0 <= i < j < |a + b| ensures (a + b)[i] != (a + b)[j] {
      if j >= |a| {
        assert (a + b)[j] == b[j - |a|];
        if i < |a| {
          assert (a + b)[i] in a;
        } else {
          assert (a + b)[i] == b[i - |a|];
        }
      }
    }
  }

  /** In a tree where every node has a single parent, a walk from one node pops no node twice. */
  lemma {:induction false} DistinctVisit(t: Tree, k: NodeId, cull: Box -> bool)
    requires Ordered(t) && Owned(t) && k < |t.nodes|
    ensures Distinct(Visit(t, k, cull))
    decreases |t.nodes| - k, ChildCount(t, k) + 1
  {
    if !Stops(t, k, cull) {
      var m := |t.nodes[k].children|;
      DistinctKids(t, k, m, cull);
      DistinctConcat([k], VisitKids(t, k, m, cull));
    }
  }

  lemma {:induction false} DistinctKids(t: Tree, k: NodeId, m: nat, cull: Box -> bool)
    requires Ordered(t) && Owned(t) && k < |t.nodes| && t.nodes[k].Internal? && m <= |t.nodes[k].children|
    ensures Distinct(VisitKids(t, k, m, cull))
    decreases |t.nodes| - k, m
  {
    if m > 0 {
      var c := t.nodes[k].children[m - 1];
      DistinctVisit(t, c, cull);
      DistinctKids(t, k, m - 1, cull);
      LastKidApart(t, k, m, c, cull);
      DistinctConcat(Visit(t, c, cull), VisitKids(t, k, m - 1, cull));
    }
  }

  /** The walk below the `m`-th child of `k` shares no node with the walks below the children before it. */
  lemma LastKidApart(t: Tree, k: NodeId, m: nat, c: NodeId, cull: Box -> bool)
    requires Ordered(t) && Owned(t) && k < |t.nodes| && t.nodes[k].Internal? && 0 < m <= |t.nodes[k].children|
    requires c == t.nodes[k].children[m - 1]
    ensures forall x :: x in Visit(t, c, cull) ==> x !in VisitKids(t, k, m - 1, cull)
  {
    forall x | x in Visit(t, c, cull) ensures x !in VisitKids(t, k, m - 1, cull) {
      KidApart(t, k, m, c, x, cull);
    }
  }

  lemma KidApart(t: Tree, k: NodeId, m: nat, c: NodeId, x: NodeId, cull: Box -> bool)
    requires Ordered(t) && Owned(t) && k < |t.nodes| && t.nodes[k].Internal? && 0 < m <= |t.nodes[k].children|
    requires c == t.nodes[k].children[m - 1] && x in Visit(t, c, cull)
    ensures x !in VisitKids(t, k, m - 1, cull)
  {
    if x in VisitKids(t, k, m - 1, cull) {
      var j := KidOf(t, k, m - 1, x, cull);
      var ch := t.nodes[k].children;
      assert j < m - 1 < |ch| && x in Visit(t, ch[m - 1], cull);
      SubtreesDisjoint(t, k, m - 1, j, x, cull);
    }
  }

  /**
   * The octree invariants the builder guarantees: a root exists, children come
   * after their parent, every node has a single parent, every leaf range lies
   * inside the `n` stored points, and the leaves together cover all of them.
   */
  ghost predicate WellFormed(t: Tree, n: nat)
  {
    && |t.nodes| > 0
    && Ordered(t)
    && Owned(t)
    && (forall k :: 0 <= k < |t.nodes| && t.nodes[k].Leaf? ==>
          t.nodes[k].beginIndex <= t.nodes[k].endIndex <= n)
    && Points(t, Root) == Range(0, n)
  }

  /** Leaf ranges lie inside `n` stored points (no coverage claimed). */
  ghost predicate RangesWithin(t: Tree, n: nat)
  {
    forall k :: 0 <= k < |t.nodes| && t.nodes[k].Leaf? ==>
      t.nodes[k].beginIndex <= t.nodes[k].endIndex <= n
  }

  /** The root that the point store creates for an empty point set. */
  function EmptyTree(): (t: Tree)
    ensures WellFormed(t, 0)
  {
    var t := Tree([Leaf(Box(Origin, Origin), 0, 0)]);
    assert Visit(t, Root, NoCull) == [Root];
    assert LeafPoints(t, [Root]) == {};
    t
  }

  /** A walk from the root of a well-formed tree, culled or not, pops no node twice. */
  lemma RootWalkDistinct(t: Tree, n: nat, cull: Box -> bool)
    requires WellFormed(t, n)
    ensures ValidIds(t, [Root]) && Distinct(VisitAll(t, [Root], cull))
  {
    RootStack(t, cull);
    DistinctVisit(t, Root, cull);
  }
}
