/**
 * What an accepted patch does to the fields of a point set.
 *
 * A patch carries new values for some named fields at a list of points given
 * by ORIGINAL index. The point store translates each index through its
 * inverse permutation to a storage slot. Values are written in patch order, so
 * where an index repeats the later entry wins. A patch field is copied only
 * onto the first store field of the same name, and only when the two types
 * are equal; the patch's own "index" field is never copied. Positions are
 * re-expressed relative to the store's offset.
 */
module Patching {
  import opened Geometry
  import opened Fields

  const UINT32_MAX: nat := 0xFFFF_FFFF

  datatype Patch = Patch(pointCount: nat, fields: seq<GeomField>, index: seq<nat>, offset: Vec3)

  /**
   * The patch object's own consistency: an index and, in every patch field, a
   * value with the field type's component count, per patched point.
   */
  ghost predicate PatchWellFormed(p: Patch)
  {
    && |p.index| >= p.pointCount
    && (forall i :: 0 <= i < |p.fields| ==> |p.fields[i].data| >= p.pointCount)
    && (forall i, j :: 0 <= i < |p.fields| && 0 <= j < p.pointCount ==>
          |p.fields[i].data[j]| == p.fields[i].spec.count)
  }

  /** The store applies a patch only if it has at most 2^32 - 1 points and every index is in range. */
  predicate Accepts(p: Patch, npoints: nat)
    requires |p.index| >= p.pointCount
  {
    npoints <= UINT32_MAX && forall j :: 0 <= j < p.pointCount ==> p.index[j] < npoints
  }

  /** The store field that patch field `pf` is copied onto, or -1 when it is skipped. */
  function Target(fields: seq<GeomField>, pf: GeomField): (k: int)
    ensures -1 <= k < |fields|
    ensures k >= 0 <==>
      pf.name != "index" && FirstNamed(fields, pf.name) >= 0 &&
      fields[FirstNamed(fields, pf.name)].spec == pf.spec
    ensures k >= 0 ==> k == FirstNamed(fields, pf.name)
  {
    if pf.name == "index" then -1
    else
      var k := FirstNamed(fields, pf.name);
      if k == -1 || fields[k].spec != pf.spec then -1 else k
  }

  /** Store fields with the same names and types resolve every patch field alike. */
  lemma SameSchemaSameTarget(a: seq<GeomField>, b: seq<GeomField>, pf: GeomField)
    requires |a| == |b|
    requires forall k :: 0 <= k < |a| ==> a[k].name == b[k].name && a[k].spec == b[k].spec
    ensures Target(a, pf) == Target(b, pf)
  {
    var ka, kb := FirstNamed(a, pf.name), FirstNamed(b, pf.name);
    if ka >= 0 {
      assert b[ka].name == pf.name;
    }
    if kb >= 0 {
      assert a[kb].name == pf.name;
    }
  }

  /**
   * A patch position `s`, relative to the patch offset, re-expressed relative
   * to the store offset: each of the three components minus `off`, where
   * `off` is the store offset minus the patch offset.
   */
  function ShiftPosition(s: Elem, off: Vec3): (r: Elem)
    ensures |r| == |s|
  {
    if |s| >= 3 then [s[0] - off.x, s[1] - off.y, s[2] - off.z] + s[3..] else s
  }

  /** Storing a shifted position keeps its world coordinates. */
  lemma ShiftKeepsWorldPosition(s: Elem, storeOffset: Vec3, patchOffset: Vec3)
    requires |s| >= 3
    ensures var r := ShiftPosition(s, Sub(storeOffset, patchOffset));
      Add(Vec3(r[0], r[1], r[2]), storeOffset) == Add(Vec3(s[0], s[1], s[2]), patchOffset)
  {
  }

  /** The storage slot written for each patch entry. */
  function Slots(inds: seq<nat>, index: seq<nat>, count: nat): (s: seq<nat>)
    requires count <= |index|
    requires forall j :: 0 <= j < count ==> index[j] < |inds|
    ensures |s| == count && forall j :: 0 <= j < count ==> s[j] == inds[index[j]]
  {
    seq(count, j requires 0 <= j < count => inds[index[j]])
  }

  /** The element written for each patch entry of field `pf`. */
  function Values(pf: GeomField, count: nat, off: Vec3): (v: seq<Elem>)
    requires count <= |pf.data|
    ensures |v| == count
    ensures forall j :: 0 <= j < count ==>
      v[j] == if pf.name == "position" then ShiftPosition(pf.data[j], off) else pf.data[j]
  {
    seq(count, j requires 0 <= j < count =>
      if pf.name == "position" then ShiftPosition(pf.data[j], off) else pf.data[j])
  }

  /**
   * `d` after writing `v[j]` into slot `s[j]` for j = 0, 1, ... in turn
   * (a slot outside `d` is not written).
   */
  function Scatter(d: seq<Elem>, s: seq<nat>, v: seq<Elem>): (r: seq<Elem>)
    requires |s| == |v|
    ensures |r| == |d|
  {
    if |s| == 0 then d
    else
      var r := Scatter(d, s[..|s| - 1], v[..|v| - 1]);
      if s[|s| - 1] < |d| then r[s[|s| - 1] := v[|v| - 1]] else r
  }

  /** The last position of `x` in `s`, or -1. */
  function LastHit(s: seq<nat>, x: nat): (j: int)
    ensures -1 <= j < |s|
    ensures j >= 0 ==> s[j] == x
    ensures forall i :: j < i < |s| ==> s[i] != x
  {
    if |s| == 0 then -1
    else if s[|s| - 1] == x then |s| - 1
    else LastHit(s[..|s| - 1], x)
  }

  /** A slot ends with the value of the last entry that names it, and is untouched otherwise. */
  lemma {:induction false} ScatterAt(d: seq<Elem>, s: seq<nat>, v: seq<Elem>, x: nat)
    requires |s| == |v|
    requires x < |d|
    ensures Scatter(d, s, v)[x] == if LastHit(s, x) >= 0 then v[LastHit(s, x)] else d[x]
  {
    if |s| > 0 && s[|s| - 1] != x {
      ScatterAt(d, s[..|s| - 1], v[..|v| - 1], x);
    }
  }

  /** Every patched point's index selects an entry of `inds`. */
  ghost predicate InRangeIndex(p: Patch, inds: seq<nat>)
  {
    |p.index| >= p.pointCount && forall j :: 0 <= j < p.pointCount ==> p.index[j] < |inds|
  }

  /** The elements of store field `k` after the first `m` patch fields have been applied. */
  ghost function DataAfter(fields: seq<GeomField>, p: Patch, inds: seq<nat>, off: Vec3, m: nat, k: nat): (d: seq<Elem>)
    requires PatchWellFormed(p) && InRangeIndex(p, inds) && m <= |p.fields| && k < |fields|
    ensures |d| == |fields[k].data|
  {
    if m == 0 then fields[k].data
    else
      var prev := DataAfter(fields, p, inds, off, m - 1, k);
      var pf := p.fields[m - 1];
      if Target(fields, pf) == k
      then Scatter(prev, Slots(inds, p.index, p.pointCount), Values(pf, p.pointCount, off))
      else prev
  }

  /** The store fields after every patch field has been applied: names and types are kept. */
  ghost function ApplyFields(fields: seq<GeomField>, p: Patch, inds: seq<nat>, off: Vec3): (r: seq<GeomField>)
    requires PatchWellFormed(p) && InRangeIndex(p, inds)
    ensures |r| == |fields|
    ensures forall k :: 0 <= k < |fields| ==>
      r[k] == fields[k].(data := DataAfter(fields, p, inds, off, |p.fields|, k))
  {
    seq(|fields|, k requires 0 <= k < |fields| =>
      fields[k].(data := DataAfter(fields, p, inds, off, |p.fields|, k)))
  }

  /** The last of the first `m` patch fields that is copied onto store field `k`, or -1. */
  function LastTargeting(fields: seq<GeomField>, p: Patch, k: nat, m: nat): (i: int)
    requires m <= |p.fields|
    ensures -1 <= i < m
    ensures i >= 0 ==> Target(fields, p.fields[i]) == k
    ensures forall j :: i < j < m ==> Target(fields, p.fields[j]) != k
  {
    if m == 0 then -1
    else if Target(fields, p.fields[m - 1]) == k then m - 1
    else LastTargeting(fields, p, k, m - 1)
  }

  /**
   * Element `x` of store field `k` after the first `m` patch fields: the value
   * from the last patch field copied onto `k`, at the last entry whose slot is
   * `x`; the old element when no patch field targets `k` or no entry names `x`.
   */
  lemma {:induction false} DataAfterAt(fields: seq<GeomField>, p: Patch, inds: seq<nat>, off: Vec3,
                                        m: nat, k: nat, x: nat)
    requires PatchWellFormed(p) && InRangeIndex(p, inds) && m <= |p.fields|
    requires k < |fields| && x < |fields[k].data|
    ensures
      var i := LastTargeting(fields, p, k, m);
      var h := LastHit(Slots(inds, p.index, p.pointCount), x);
      DataAfter(fields, p, inds, off, m, k)[x] ==
        if i >= 0 && h >= 0 then Values(p.fields[i], p.pointCount, off)[h] else fields[k].data[x]
  {
    if m > 0 {
      DataAfterAt(fields, p, inds, off, m - 1, k, x);
      var pf := p.fields[m - 1];
      if Target(fields, pf) == k {
        var slots := Slots(inds, p.index, p.pointCount);
        ScatterAt(DataAfter(fields, p, inds, off, m - 1, k), slots, Values(pf, p.pointCount, off), x);
      }
    }
  }

  /** Store fields after applying patch `p`, or unchanged when the store rejects it. */
  ghost function Mutated(fields: seq<GeomField>, inds: seq<nat>, npoints: nat, offset: Vec3, p: Patch): (r: seq<GeomField>)
    requires PatchWellFormed(p) && |inds| == npoints
    ensures |r| == |fields|
  {
    if Accepts(p, npoints) then ApplyFields(fields, p, inds, Sub(offset, p.offset)) else fields
  }

  /** With `inds` injective, the slot `inds[o]` is named exactly by the entries addressed to `o`. */
  lemma {:induction false} SlotHitIsIndexHit(inds: seq<nat>, index: seq<nat>, count: nat, o: nat)
    requires count <= |index| && o < |inds|
    requires forall j :: 0 <= j < count ==> index[j] < |inds|
    requires forall a, b :: 0 <= a < b < |inds| ==> inds[a] != inds[b]
    ensures LastHit(Slots(inds, index, count), inds[o]) == LastHit(index[..count], o)
  {
    var s := Slots(inds, index, count);
    var h := LastHit(s, inds[o]);
    var g := LastHit(index[..count], o);
    if h >= 0 { assert inds[index[h]] == inds[o]; assert index[..count][h] == o; }
    if g >= 0 { assert s[g] == inds[o]; }
  }

  /**
   * The effect of an accepted patch on the point with ORIGINAL index `o`:
   * its storage slot `inds[o]` in store field `k` holds the value of the last
   * patch entry addressed to `o`, from the last patch field copied onto `k`,
   * and keeps its old value when there is no such entry or field.
   */
  lemma MutatedAtOriginal(fields: seq<GeomField>, inds: seq<nat>, npoints: nat, offset: Vec3, p: Patch,
                          k: nat, o: nat)
    requires PatchWellFormed(p) && |inds| == npoints && Accepts(p, npoints)
    requires forall a, b :: 0 <= a < b < |inds| ==> inds[a] != inds[b]
    requires k < |fields| && o < npoints && inds[o] < |fields[k].data|
    ensures
      var i := LastTargeting(fields, p, k, |p.fields|);
      var j := LastHit(p.index[..p.pointCount], o);
      Mutated(fields, inds, npoints, offset, p)[k].data[inds[o]] ==
        if i >= 0 && j >= 0 then
          (if p.fields[i].name == "position"
           then ShiftPosition(p.fields[i].data[j], Sub(offset, p.offset))
           else p.fields[i].data[j])
        else fields[k].data[inds[o]]
  {
    DataAfterAt(fields, p, inds, Sub(offset, p.offset), |p.fields|, k, inds[o]);
    SlotHitIsIndexHit(inds, p.index, p.pointCount, o);
  }

  /** Applying a patch keeps every field's name, type, length and element shape. */
  lemma MutatedKeepsShape(fields: seq<GeomField>, inds: seq<nat>, npoints: nat, offset: Vec3, p: Patch)
    requires PatchWellFormed(p) && |inds| == npoints && AllFit(fields, npoints)
    ensures var r := Mutated(fields, inds, npoints, offset, p);
      && AllFit(r, npoints)
      && forall k :: 0 <= k < |fields| ==> r[k].name == fields[k].name && r[k].spec == fields[k].spec
  {
    var r := Mutated(fields, inds, npoints, offset, p);
    if Accepts(p, npoints) {
      var off := Sub(offset, p.offset);
      forall k, x | 0 <= k < |fields| && 0 <= x < npoints
        ensures |r[k].data[x]| == fields[k].spec.count
      {
        DataAfterAt(fields, p, inds, off, |p.fields|, k, x);
      }
    }
  }

  // ---------------------------------------------------------------------------
  // The store's patch loops

  /** Writes the entries of patch field `pf` into the storage slots of their points, in patch order. */
  method ScatterPatch(data: seq<Elem>, inds: seq<nat>, p: Patch, pf: GeomField, off: Vec3) returns (dest: seq<Elem>)
    requires InRangeIndex(p, inds) && p.pointCount <= |pf.data|
    requires forall j :: 0 <= j < p.pointCount ==> inds[p.index[j]] < |data|
    ensures dest == Scatter(data, Slots(inds, p.index, p.pointCount), Values(pf, p.pointCount, off))
  {
    ghost var slots := Slots(inds, p.index, p.pointCount);
    ghost var vals := Values(pf, p.pointCount, off);
    dest := data;
    var j := 0;
    while j < p.pointCount
      invariant 0 <= j <= p.pointCount
      invariant dest == Scatter(data, slots[..j], vals[..j])
    {
      var v := if pf.name == "position" then ShiftPosition(pf.data[j], off) else pf.data[j];
      assert slots[..j + 1][..j] == slots[..j] && vals[..j + 1][..j] == vals[..j];
      dest := dest[inds[p.index[j]] := v];
      j := j + 1;
    }
    assert slots[..p.pointCount] == slots && vals[..p.pointCount] == vals;
  }

  /** The store fields hold what the first `m` patch fields leave in them. */
  ghost predicate AppliedUpTo(fields: seq<GeomField>, fs: seq<GeomField>, p: Patch, inds: seq<nat>, off: Vec3, m: nat)
    requires PatchWellFormed(p) && InRangeIndex(p, inds) && m <= |p.fields|
  {
    && |fs| == |fields|
    && forall k :: 0 <= k < |fs| ==> fs[k] == fields[k].(data := DataAfter(fields, p, inds, off, m, k))
  }

  /** Copies patch field `m` onto the first store field of its name, when the types are equal. */
  method PatchField(fields: seq<GeomField>, fs: seq<GeomField>, inds: seq<nat>, npoints: nat, p: Patch, off: Vec3, m: nat)
    returns (fs': seq<GeomField>)
    requires PatchWellFormed(p) && |inds| == npoints && AllFit(fields, npoints)
    requires forall o :: 0 <= o < npoints ==> inds[o] < npoints
    requires InRangeIndex(p, inds) && m < |p.fields|
    requires AppliedUpTo(fields, fs, p, inds, off, m)
    ensures AppliedUpTo(fields, fs', p, inds, off, m + 1)
  {
    fs' := fs;
    var pf := p.fields[m];
    SameSchemaSameTarget(fields, fs, pf);
    if pf.name != "index" {
      var found := FindField(fs, pf.name);
      if found != -1 && fs[found].spec != pf.spec {
        found := -1;
      }
      if found != -1 {
        var dest := ScatterPatch(fs[found].data, inds, p, pf, off);
        fs' := fs[found := fs[found].(data := dest)];
      }
    }
  }

  /**
   * Applies patch `p` to the fields of a store of `npoints` points with
   * offset `offset` and slot table `inds`: nothing is written when the store
   * has more than 2^32 - 1 points or an index is out of range; otherwise each
   * patch field other than "index" is copied onto the first store field of
   * its name, when the types are equal.
   */
  method ApplyPatch(fields: seq<GeomField>, inds: seq<nat>, npoints: nat, offset: Vec3, p: Patch)
    returns (fs: seq<GeomField>)
    requires PatchWellFormed(p) && |inds| == npoints && AllFit(fields, npoints)
    requires forall o :: 0 <= o < npoints ==> inds[o] < npoints
    ensures fs == Mutated(fields, inds, npoints, offset, p)
  {
    fs := fields;
    if npoints > UINT32_MAX {
      return;
    }
    var j := 0;
    while j < p.pointCount
      invariant 0 <= j <= p.pointCount
      invariant forall j' :: 0 <= j' < j ==> p.index[j'] < npoints
    {
      if p.index[j] >= npoints {
        return;
      }
      j := j + 1;
    }
    var off := Sub(offset, p.offset);
    var m := 0;
    while m < |p.fields|
      invariant 0 <= m <= |p.fields|
      invariant AppliedUpTo(fields, fs, p, inds, off, m)
    {
      fs := PatchField(fields, fs, inds, npoints, p, off, m);
      m := m + 1;
    }
  }
}
