/**
 * The list of detected poles held by the 3D view: it can be counted, read
 * by index (an index past the end reads the origin) and shortened by index
 * (an index out of range changes nothing).
 */
module Poles {
  import opened Geometry

  /** The pole read at `idx`: the stored pole, or the origin past the end. */
  function At(poles: seq<Vec3>, idx: nat): (v: Vec3)
    ensures idx < |poles| ==> v == poles[idx]
    ensures idx >= |poles| ==> v == Origin
  {
    if idx < |poles| then poles[idx] else Origin
  }

  /**
   * The list after erasing the entry at `idx`: one shorter, with the later
   * entries moved down by one, when `idx` is in range; unchanged otherwise.
   */
  function Erase(poles: seq<Vec3>, idx: int): (r: seq<Vec3>)
    ensures 0 <= idx < |poles| ==>
      && |r| == |poles| - 1
      && (forall j :: 0 <= j < idx ==> r[j] == poles[j])
      && (forall j :: idx <= j < |r| ==> r[j] == poles[j + 1])
    ensures !(0 <= idx < |poles|) ==> r == poles
  {
    if 0 <= idx < |poles| then poles[..idx] + poles[idx + 1..] else poles
  }

  /** Reading after an erase at `idx` reads the old list one place further on from `idx`. */
  lemma AtAfterErase(poles: seq<Vec3>, idx: int, j: nat)
    requires 0 <= idx < |poles|
    ensures At(Erase(poles, idx), j) == At(poles, if j < idx then j else j + 1)
  {
    var r := Erase(poles, idx);
    if j >= idx && j < |r| {
      assert r[j] == poles[j + 1];
    }
  }

  /** Erasing keeps every other pole and drops exactly one copy of the erased one. */
  lemma EraseMultiset(poles: seq<Vec3>, idx: int)
    requires 0 <= idx < |poles|
    ensures multiset(Erase(poles, idx)) == multiset(poles) - multiset{poles[idx]}
  {
    assert poles == poles[..idx] + [poles[idx]] + poles[idx + 1..];
  }

  /** The view's pole list. */
  class PoleView {
    var poles: seq<Vec3>

    constructor (ps: seq<Vec3>)
      ensures poles == ps
    {
      poles := ps;
    }

    /** The number of poles. */
    function PoleCount(): (c: nat)
      reads this
    {
      |poles|
    }

    /** The pole at `idx`, or the origin when there is none. */
    function GetPoleAt(idx: nat): (v: Vec3)
      reads this
    {
      At(poles, idx)
    }

    /** Erases the pole at `idx` when it is in range. */
    method RemovePoleAt(idx: int)
      modifies this
      ensures poles == Erase(old(poles), idx)
      ensures PoleCount() == old(PoleCount()) - (if 0 <= idx < old(PoleCount()) then 1 else 0)
    {
      if idx >= 0 && idx < |poles| {
        poles := poles[..idx] + poles[idx + 1..];
      }
    }
  }
}
