/**
 * The mesh of the sphere drawn at a picked position: a grid of
 * (stacks + 1) x (slices + 1) vertices, three coordinates each, with a
 * normal per vertex, and two triangles per grid cell given as vertex
 * indices. The trigonometry that places vertex (i, j) and the normalisation
 * of a normal are collaborators given as function parameters.
 */
module SphereMesh {
  import opened Geometry

  /** The number of loop iterations `for (k = 0; k <= bound; ++k)`. */
  function Count(bound: int): nat
  {
    if bound >= 0 then bound + 1 else 0
  }

  /** The number of loop iterations `for (k = 0; k < bound; ++k)`. */
  function Cells(bound: int): nat
  {
    if bound >= 0 then bound else 0
  }

  lemma MulSucc(a: nat, b: nat)
    ensures a * b + b == (a + 1) * b
  {
  }

  lemma MulMono(a: nat, c: nat, b: nat)
    requires a <= c
    ensures a * b <= c * b
  {
  }

  function Coords(v: Vec3): seq<real>
  {
    [v.x, v.y, v.z]
  }

  /** The coordinates of the points, three per point, in order. */
  function Flatten(ps: seq<Vec3>): (r: seq<real>)
    ensures |r| == 3 * |ps|
  {
    if ps == [] then [] else Flatten(ps[..|ps| - 1]) + Coords(ps[|ps| - 1])
  }

  /** Coordinate `c` of point `k` sits at position 3k + c. */
  lemma {:induction false} FlattenAt(ps: seq<Vec3>, k: nat, c: nat)
    requires k < |ps| && c < 3
    ensures Flatten(ps)[3 * k + c] == Coords(ps[k])[c]
  {
    var m := |ps| - 1;
    if k < m {
      FlattenAt(ps[..m], k, c);
    }
  }

  /** Row `i` of the grid: points (i, 0) .. (i, cols - 1). */
  function RowPoints(i: nat, cols: nat, point: (int, int) -> Vec3): (r: seq<Vec3>)
    ensures |r| == cols
  {
    if cols == 0 then [] else RowPoints(i, cols - 1, point) + [point(i, cols - 1)]
  }

  /** The grid rows 0 .. rows - 1, row after row. */
  function GridPoints(rows: nat, cols: nat, point: (int, int) -> Vec3): seq<Vec3>
  {
    if rows == 0 then [] else GridPoints(rows - 1, cols, point) + RowPoints(rows - 1, cols, point)
  }

  lemma {:induction false} RowPointsAt(i: nat, cols: nat, point: (int, int) -> Vec3)
    ensures forall j :: 0 <= j < cols ==> RowPoints(i, cols, point)[j] == point(i, j)
  {
    if cols > 0 {
      RowPointsAt(i, cols - 1, point);
    }
  }

  /** The grid holds rows * cols points. */
  lemma {:induction false} GridSize(rows: nat, cols: nat, point: (int, int) -> Vec3)
    ensures |GridPoints(rows, cols, point)| == rows * cols
  {
    if rows > 0 {
      GridSize(rows - 1, cols, point);
      MulSucc(rows - 1, cols);
    }
  }

  /** Point (i, j) of the grid sits at position i * cols + j. */
  lemma {:induction false} GridPointAt(rows: nat, cols: nat, point: (int, int) -> Vec3, i: nat, j: nat)
    requires i < rows && j < cols
    ensures i * cols + j < |GridPoints(rows, cols, point)|
    ensures GridPoints(rows, cols, point)[i * cols + j] == point(i, j)
  {
    GridSize(rows - 1, cols, point);
    GridSize(rows, cols, point);
    RowPointsAt(rows - 1, cols, point);
    MulSucc(i, cols);
    MulMono(i + 1, rows, cols);
    if i < rows - 1 {
      MulMono(i + 1, rows - 1, cols);
      GridPointAt(rows - 1, cols, point, i, j);
    }
  }

  /** The normals of the points, in order. */
  function Normals(ps: seq<Vec3>, normalize: Vec3 -> Vec3): (r: seq<Vec3>)
    ensures |r| == |ps|
  {
    if ps == [] then [] else Normals(ps[..|ps| - 1], normalize) + [normalize(ps[|ps| - 1])]
  }

  lemma {:induction false} NormalAt(ps: seq<Vec3>, normalize: Vec3 -> Vec3, k: nat)
    requires k < |ps|
    ensures Normals(ps, normalize)[k] == normalize(ps[k])
  {
    if k < |ps| - 1 {
      NormalAt(ps[..|ps| - 1], normalize, k);
    }
  }

  /** The two triangles of the cell whose upper-left vertex is `first`, in a grid `cols` wide. */
  function Quad(first: int, cols: int): seq<int>
  {
    var second := first + cols;
    [first, second, first + 1, second, second + 1, first + 1]
  }

  /** The triangles of cells 0 .. j - 1 of cell row `i`, six indices per cell. */
  function RowIndices(i: nat, slices: nat, j: nat): (r: seq<int>)
    ensures |r| == 6 * j
  {
    if j == 0 then [] else RowIndices(i, slices, j - 1) + Quad(i * (slices + 1) + j - 1, slices + 1)
  }

  /** The triangles of cell rows 0 .. s - 1. */
  function MeshIndices(s: nat, slices: nat): seq<int>
  {
    if s == 0 then [] else MeshIndices(s - 1, slices) + RowIndices(s - 1, slices, slices)
  }

  /** The vertices of cell row `i` lie in grid rows `i` and `i + 1`. */
  lemma {:induction false} RowIndicesRange(i: nat, slices: nat, j: nat)
    requires j <= slices
    ensures forall k :: 0 <= k < |RowIndices(i, slices, j)| ==>
      i * (slices + 1) <= RowIndices(i, slices, j)[k] < (i + 2) * (slices + 1)
  {
    if j > 0 {
      RowIndicesRange(i, slices, j - 1);
      MulSucc(i, slices + 1);
      MulSucc(i + 1, slices + 1);
    }
  }

  /** Entries within [0, bound) on both sides stay within it after concatenation. */
  lemma ConcatWithin(a: seq<int>, b: seq<int>, bound: int)
    requires forall k :: 0 <= k < |a| ==> 0 <= a[k] < bound
    requires forall k :: 0 <= k < |b| ==> 0 <= b[k] < bound
    ensures forall k :: 0 <= k < |a + b| ==> 0 <= (a + b)[k] < bound
  {
    forall k | 0 <= k < |a + b| ensures 0 <= (a + b)[k] < bound {
      if k >= |a| {
        assert (a + b)[k] == b[k - |a|];
      }
    }
  }

  /** `s` cell rows of `slices` cells make 6 * (s * slices) indices. */
  lemma {:induction false} MeshIndicesSize(s: nat, slices: nat)
    ensures |MeshIndices(s, slices)| == 6 * (s * slices)
  {
    if s > 0 {
      MeshIndicesSize(s - 1, slices);
      MulSucc(s - 1, slices);
    }
  }

  /** Every index of `s` cell rows names one of the (s + 1) * (slices + 1) grid vertices. */
  lemma {:induction false} MeshIndicesRange(s: nat, slices: nat)
    ensures forall k :: 0 <= k < |MeshIndices(s, slices)| ==> 0 <= MeshIndices(s, slices)[k] < (s + 1) * (slices + 1)
  {
    if s > 0 {
      var bound := (s + 1) * (slices + 1);
      MeshIndicesRange(s - 1, slices);
      RowIndicesRange(s - 1, slices, slices);
      MulMono(s, s + 1, slices + 1);
      assert (s - 1 + 2) * (slices + 1) == bound;
      ConcatWithin(MeshIndices(s - 1, slices), RowIndices(s - 1, slices, slices), bound);
    }
  }

  /** Cell `j` of cell row `i` is drawn as the two triangles of its four corners. */
  lemma {:induction false} RowCell(i: nat, slices: nat, j: nat, c: nat)
    requires c < j <= slices
    ensures RowIndices(i, slices, j)[6 * c..6 * c + 6] == Quad(i * (slices + 1) + c, slices + 1)
  {
    if c < j - 1 {
      RowCell(i, slices, j - 1, c);
    }
  }

  /** The buffer of `i` cell rows is a prefix of the buffer of `s` cell rows. */
  lemma {:induction false} MeshPrefix(i: nat, s: nat, slices: nat)
    requires i <= s
    ensures |MeshIndices(i, slices)| <= |MeshIndices(s, slices)|
    ensures MeshIndices(s, slices)[..|MeshIndices(i, slices)|] == MeshIndices(i, slices)
  {
    if i < s {
      MeshPrefix(i, s - 1, slices);
      var prev := MeshIndices(s - 1, slices);
      assert MeshIndices(s, slices) == prev + RowIndices(s - 1, slices, slices);
      assert MeshIndices(s, slices)[..|prev|] == prev;
    }
  }

  /** Cell `j` of cell row `i` follows the first `i` cell rows and the first `j` cells of its own row. */
  lemma MeshCellAfter(s: nat, slices: nat, i: nat, j: nat)
    requires i < s && j < slices
    ensures var b := |MeshIndices(i, slices)| + 6 * j;
      b + 6 <= |MeshIndices(s, slices)| &&
      MeshIndices(s, slices)[b..b + 6] == Quad(i * (slices + 1) + j, slices + 1)
  {
    var before, row := MeshIndices(i, slices), RowIndices(i, slices, slices);
    var whole, upto := MeshIndices(s, slices), MeshIndices(i + 1, slices);
    var b := |before| + 6 * j;
    assert upto == before + row;
    assert |upto| <= |whole| && whole[..|upto|] == upto by {
      MeshPrefix(i + 1, s, slices);
    }
    assert upto[b..b + 6] == row[6 * j..6 * j + 6] by {
      SliceRight(before, row, b, b + 6);
    }
    assert whole[b..b + 6] == upto[b..b + 6] by {
      SliceOfPrefix(whole, upto, b, b + 6);
    }
    var quad := Quad(i * (slices + 1) + j, slices + 1);
    assert row[6 * j..6 * j + 6] == quad by {
      RowCell(i, slices, slices, j);
    }
    assert whole[b..b + 6] == quad;
  }

  /** A slice within the right operand of a concatenation. */
  lemma SliceRight(a: seq<int>, c: seq<int>, lo: nat, hi: nat)
    requires |a| <= lo <= hi <= |a| + |c|
    ensures (a + c)[lo..hi] == c[lo - |a|..hi - |a|]
  {
  }

  /** A slice of a prefix is the same slice of the whole. */
  lemma SliceOfPrefix(a: seq<int>, p: seq<int>, lo: nat, hi: nat)
    requires |p| <= |a| && a[..|p|] == p && lo <= hi <= |p|
    ensures a[lo..hi] == p[lo..hi]
  {
    forall k | lo <= k < hi ensures a[k] == p[k] {
      assert a[..|p|][k] == a[k];
    }
  }

  /** Cell `j` of cell row `i` occupies entries 6(i * slices + j) .. 6(i * slices + j) + 5 of the index buffer. */
  lemma MeshCell(s: nat, slices: nat, i: nat, j: nat)
    requires i < s && j < slices
    ensures 6 * (i * slices + j) + 6 <= |MeshIndices(s, slices)|
    ensures MeshIndices(s, slices)[6 * (i * slices + j)..6 * (i * slices + j) + 6] ==
      Quad(i * (slices + 1) + j, slices + 1)
  {
    MeshIndicesSize(i, slices);
    MeshCellAfter(s, slices, i, j);
  }

  /** One more point adds its coordinates and those of its normal at the end. */
  lemma Snoc(ps: seq<Vec3>, p: Vec3, normalize: Vec3 -> Vec3)
    ensures Flatten(ps + [p]) == Flatten(ps) + Coords(p)
    ensures Flatten(Normals(ps + [p], normalize)) == Flatten(Normals(ps, normalize)) + Coords(normalize(p))
  {
    assert (ps + [p])[..|ps|] == ps;
    assert Normals(ps + [p], normalize) == Normals(ps, normalize) + [normalize(p)];
    assert (Normals(ps, normalize) + [normalize(p)])[..|ps|] == Normals(ps, normalize);
  }

  /** Point (i, j) comes next after the first j points of row `i`. */
  lemma RowSnoc(done: seq<Vec3>, i: nat, j: nat, point: (int, int) -> Vec3, normalize: Vec3 -> Vec3)
    ensures Flatten(done + RowPoints(i, j + 1, point)) == Flatten(done + RowPoints(i, j, point)) + Coords(point(i, j))
    ensures Flatten(Normals(done + RowPoints(i, j + 1, point), normalize)) ==
      Flatten(Normals(done + RowPoints(i, j, point), normalize)) + Coords(normalize(point(i, j)))
  {
    assert done + RowPoints(i, j + 1, point) == (done + RowPoints(i, j, point)) + [point(i, j)];
    Snoc(done + RowPoints(i, j, point), point(i, j), normalize);
  }

  /** Appends grid row `i`, point by point, to the coordinate and normal buffers of the rows before it. */
  method AppendRow(i: nat, slices: int, point: (int, int) -> Vec3, normalize: Vec3 -> Vec3,
                   vertices: seq<real>, normals: seq<real>, ghost done: seq<Vec3>)
    returns (vertices': seq<real>, normals': seq<real>)
    requires vertices == Flatten(done) && normals == Flatten(Normals(done, normalize))
    ensures vertices' == Flatten(done + RowPoints(i, Count(slices), point))
    ensures normals' == Flatten(Normals(done + RowPoints(i, Count(slices), point), normalize))
  {
    vertices', normals' := vertices, normals;
    assert done + RowPoints(i, 0, point) == done;
    var j := 0;
    while j <= slices
      invariant 0 <= j <= Count(slices)
      invariant vertices' == Flatten(done + RowPoints(i, j, point))
      invariant normals' == Flatten(Normals(done + RowPoints(i, j, point), normalize))
    {
      var p := point(i, j);
      RowSnoc(done, i, j, point, normalize);
      vertices' := vertices' + [p.x, p.y, p.z];
      var n := normalize(p);
      normals' := normals' + [n.x, n.y, n.z];
      j := j + 1;
    }
    assert j == Count(slices);
  }

  /** The vertex coordinates and normal coordinates of the grid, row by row. */
  method GridBuffers(stacks: int, slices: int, point: (int, int) -> Vec3, normalize: Vec3 -> Vec3)
    returns (vertices: seq<real>, normals: seq<real>)
    ensures vertices == Flatten(GridPoints(Count(stacks), Count(slices), point))
    ensures normals == Flatten(Normals(GridPoints(Count(stacks), Count(slices), point), normalize))
  {
    vertices, normals := [], [];
    var i := 0;
    while i <= stacks
      invariant 0 <= i <= Count(stacks)
      invariant vertices == Flatten(GridPoints(i, Count(slices), point))
      invariant normals == Flatten(Normals(GridPoints(i, Count(slices), point), normalize))
    {
      vertices, normals := AppendRow(i, slices, point, normalize, vertices, normals, GridPoints(i, Count(slices), point));
      i := i + 1;
    }
  }

  /** Cell `j` of row `i` comes next after the first j cells, as two triangles of three indices. */
  lemma CellSnoc(done: seq<int>, i: nat, slices: nat, j: nat)
    ensures var first := i * (slices + 1) + j; var second := first + slices + 1;
      done + RowIndices(i, slices, j + 1) ==
        done + RowIndices(i, slices, j) + [first, second, first + 1] + [second, second + 1, first + 1]
  {
    var first := i * (slices + 1) + j;
    var second := first + slices + 1;
    var a, b := done + RowIndices(i, slices, j), [first, second, first + 1];
    assert Quad(first, slices + 1) == b + [second, second + 1, first + 1];
    assert done + RowIndices(i, slices, j + 1) == a + Quad(first, slices + 1);
  }

  /** Appends the triangles of cell row `i`, cell by cell, to the indices of the rows before it. */
  method AppendCellRow(i: nat, slices: int, indices: seq<int>) returns (indices': seq<int>)
    ensures indices' == indices + RowIndices(i, Cells(slices), Cells(slices))
  {
    indices' := indices;
    var j := 0;
    while j < slices
      invariant 0 <= j <= Cells(slices)
      invariant indices' == indices + RowIndices(i, Cells(slices), j)
    {
      var first := i * (slices + 1) + j;
      var second := first + slices + 1;
      CellSnoc(indices, i, Cells(slices), j);
      indices' := indices' + [first, second, first + 1];
      indices' := indices' + [second, second + 1, first + 1];
      j := j + 1;
    }
  }

  /** The triangle indices of the grid, cell row by cell row. */
  method TriangleIndices(stacks: int, slices: int) returns (indices: seq<int>)
    ensures indices == MeshIndices(Cells(stacks), Cells(slices))
  {
    indices := [];
    var i := 0;
    while i < stacks
      invariant 0 <= i <= Cells(stacks)
      invariant indices == MeshIndices(i, Cells(slices))
    {
      indices := AppendCellRow(i, slices, indices);
      i := i + 1;
    }
  }

  /**
   * Every index of the generated mesh names a generated vertex, and there is
   * a normal for every vertex: both buffers hold three coordinates per
   * vertex.
   */
  lemma MeshConsistent(stacks: int, slices: int, point: (int, int) -> Vec3, normalize: Vec3 -> Vec3)
    ensures var grid := GridPoints(Count(stacks), Count(slices), point);
      && |Flatten(grid)| == 3 * (Count(stacks) * Count(slices))
      && |Flatten(Normals(grid, normalize))| == |Flatten(grid)|
      && |MeshIndices(Cells(stacks), Cells(slices))| == 6 * (Cells(stacks) * Cells(slices))
      && forall k :: 0 <= k < |MeshIndices(Cells(stacks), Cells(slices))| ==>
           0 <= 3 * MeshIndices(Cells(stacks), Cells(slices))[k] + 2 < |Flatten(grid)|
  {
    GridSize(Count(stacks), Count(slices), point);
    var rows, cols := Count(stacks), Count(slices);
    MeshIndicesSize(Cells(stacks), Cells(slices));
    if stacks >= 0 && slices >= 0 {
      MeshIndicesRange(stacks, slices);
    } else {
      assert Cells(stacks) == 0 || Cells(slices) == 0;
      MeshIndicesRange(Cells(stacks), Cells(slices));
    }
  }

  /** A sphere marker: its place, radius and mesh buffers. */
  class Sphere {
    var position: Vec3
    var radius: real
    var vertices: seq<real>
    var normals: seq<real>
    var indices: seq<int>

    constructor (position: Vec3, radius: real, stacks: int, slices: int,
                 point: (int, int) -> Vec3, normalize: Vec3 -> Vec3)
      ensures this.position == position && this.radius == radius
      ensures vertices == Flatten(GridPoints(Count(stacks), Count(slices), point))
      ensures normals == Flatten(Normals(GridPoints(Count(stacks), Count(slices), point), normalize))
      ensures indices == MeshIndices(Cells(stacks), Cells(slices))
    {
      this.position := position;
      this.radius := radius;
      new;
      GenerateGeometry(stacks, slices, point, normalize);
    }

    /** Replaces the three buffers with the mesh of a (stacks, slices) grid. */
    method GenerateGeometry(stacks: int, slices: int, point: (int, int) -> Vec3, normalize: Vec3 -> Vec3)
      modifies this
      ensures position == old(position) && radius == old(radius)
      ensures vertices == Flatten(GridPoints(Count(stacks), Count(slices), point))
      ensures normals == Flatten(Normals(GridPoints(Count(stacks), Count(slices), point), normalize))
      ensures indices == MeshIndices(Cells(stacks), Cells(slices))
    {
      vertices, normals, indices := [], [], [];
      var vs, ns := GridBuffers(stacks, slices, point, normalize);
      vertices, normals := vertices + vs, normals + ns;
      var tris := TriangleIndices(stacks, slices);
      indices := indices + tris;
    }
  }
}
