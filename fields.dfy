/**
 * Named, typed per-point attribute columns of a point set.
 *
 * A column stores one element per point; an element is the list of its
 * scalar components (three for a position, one for a classification byte).
 * Integer components are kept as integral reals, float components as reals.
 */
module Fields {

  /** Base scalar type of a field. */
  datatype BaseType = Int | Uint | Float

  /** Scalar type, bytes per scalar, and scalars per element. */
  datatype TypeSpec = TypeSpec(base: BaseType, elsize: nat, count: nat)

  /** The type that the mandatory position field must have. */
  const Vec3Float32 := TypeSpec(Float, 4, 3)

  type Elem = seq<real>

  /** An unsigned 8-bit value, such as a classification code. */
  newtype Byte = x: int | 0 <= x < 256

  datatype GeomField = GeomField(name: string, spec: TypeSpec, data: seq<Elem>)

  /** A column holding exactly `n` elements, each with the type's component count. */
  ghost predicate FieldFits(f: GeomField, n: nat)
  {
    && |f.data| == n
    && f.spec.count >= 1
    && forall i :: 0 <= i < n ==> |f.data[i]| == f.spec.count
  }

  ghost predicate AllFit(fields: seq<GeomField>, n: nat)
  {
    forall i :: 0 <= i < |fields| ==> FieldFits(fields[i], n)
  }

  /** Index of the first field called `name`, or -1 when there is none. */
  function FirstNamed(fields: seq<GeomField>, name: string): (k: int)
    ensures -1 <= k < |fields|
    ensures k == -1 <==> forall i :: 0 <= i < |fields| ==> fields[i].name != name
    ensures k >= 0 ==> fields[k].name == name && forall i :: 0 <= i < k ==> fields[i].name != name
  {
    if |fields| == 0 then -1
    else if fields[0].name == name then 0
    else
      var r := FirstNamed(fields[1..], name);
      if r == -1 then -1 else r + 1
  }

  /** Is `f` a usable position field: called "position" and of type vec3float32? */
  predicate IsPositionField(f: GeomField)
  {
    f.name == "position" && f.spec == Vec3Float32
  }

  /** Index of the first usable position field, or -1 when there is none. */
  function FirstPosition(fields: seq<GeomField>): (k: int)
    ensures -1 <= k < |fields|
    ensures k == -1 <==> forall i :: 0 <= i < |fields| ==> !IsPositionField(fields[i])
    ensures k >= 0 ==> IsPositionField(fields[k]) && forall i :: 0 <= i < k ==> !IsPositionField(fields[i])
  {
    if |fields| == 0 then -1
    else if IsPositionField(fields[0]) then 0
    else
      var r := FirstPosition(fields[1..]);
      if r == -1 then -1 else r + 1
  }

  /** The linear search over the field list by name. */
  method FindField(fields: seq<GeomField>, name: string) returns (k: int)
    ensures k == FirstNamed(fields, name)
  {
    k := -1;
    var i := 0;
    while i < |fields|
      invariant 0 <= i <= |fields|
      invariant forall j :: 0 <= j < i ==> fields[j].name != name
    {
      if fields[i].name == name {
        k := i;
        return;
      }
      i := i + 1;
    }
  }

  /** The search for the position field made when a file is loaded. */
  method FindPositionField(fields: seq<GeomField>) returns (k: int)
    ensures k == FirstPosition(fields)
  {
    k := -1;
    var i := 0;
    while i < |fields|
      invariant 0 <= i <= |fields|
      invariant forall j :: 0 <= j < i ==> !IsPositionField(fields[j])
    {
      if fields[i].name == "position" && fields[i].spec == Vec3Float32 {
        k := i;
        break;
      }
      i := i + 1;
    }
  }

  /** Column reordered so that storage slot `i` holds original element `perm[i]`. */
  function Reorder(data: seq<Elem>, perm: seq<nat>): (r: seq<Elem>)
    requires forall i :: 0 <= i < |perm| ==> perm[i] < |data|
    ensures |r| == |perm|
    ensures forall i :: 0 <= i < |perm| ==> r[i] == data[perm[i]]
  {
    seq(|perm|, i requires 0 <= i < |perm| => data[perm[i]])
  }
}
