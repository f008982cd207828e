/**
 * Frustum topology of one camera (`get_camera_mesh`) and the merge of many
 * camera meshes into one vertex list and one face list (`merge_meshes`).
 * Vertex coordinates are kept abstract: the vertices are those already moved
 * into world space by the pose, taken as input.
 */
module CameraMesh {
  import opened Sequences

  datatype Axis = X | Y | Z

  /** A vertex with coordinates of an abstract type `C`. */
  datatype Point<C> = Point(x: C, y: C, z: C)
  {
    function Coord(axis: Axis): C
    {
      match axis
      case X => x
      case Y => y
      case Z => z
    }
  }

  /** A triangle given by three indices into a vertex list. */
  datatype Face = Face(a: nat, b: nat, c: nat)
  {
    function Shift(offset: nat): (f: Face)
      ensures forall n: nat :: Below(n) ==> f.Below(n + offset)
    {
      Face(a + offset, b + offset, c + offset)
    }

    predicate Below(n: nat)
    {
      a < n && b < n && c < n
    }

    predicate Touches(v: nat)
    {
      a == v || b == v || c == v
    }
  }

  /** Four front-plane corners (indices 0 to 3) and the apex at the camera centre. */
  const VerticesPerCamera: nat := 5
  const Apex: nat := 4

  /** The six triangles of the frustum: two for the front plane, four side walls to the apex. */
  function FaceTable(): (faces: seq<Face>)
    ensures |faces| == 6
    ensures forall f :: 0 <= f < |faces| ==> faces[f].Below(VerticesPerCamera)
    ensures forall f :: 2 <= f < |faces| ==> faces[f].Touches(Apex)
    ensures forall f :: 0 <= f < 2 ==> !faces[f].Touches(Apex)
  {
    [Face(0, 1, 2), Face(0, 2, 3), Face(0, 1, 4), Face(1, 2, 4), Face(2, 3, 4), Face(3, 0, 4)]
  }

  /** Every vertex of the frustum belongs to some face of the table. */
  lemma FaceTableCoversVertices(v: nat)
    requires v < VerticesPerCamera
    ensures exists f :: 0 <= f < |FaceTable()| && FaceTable()[f].Touches(v)
  {
    var faces := FaceTable();
    if v < 3 {
      assert faces[0].Touches(v);
    } else {
      assert faces[4].Touches(v);
    }
  }

  /** The order in which the wireframe polyline visits the five vertices. */
  const WireframeOrder: seq<nat> := [0, 1, 2, 3, 0, 4, 1, 2, 4, 3]

  /** The wireframe polyline of one camera: its vertices selected in `WireframeOrder`. */
  function Wireframe<C>(vertices: seq<Point<C>>): (w: seq<Point<C>>)
    requires |vertices| == VerticesPerCamera
    ensures |w| == |WireframeOrder|
    ensures w[5] == vertices[|vertices| - 1]
  {
    seq(|WireframeOrder|, j requires 0 <= j < |WireframeOrder| => vertices[WireframeOrder[j]])
  }

  /**
   * The wireframe has ten points, each a vertex of the camera; it outlines the
   * front plane and returns to corner 0, its point 5 is the apex, the last
   * vertex, which is what the callers read as the camera centre, and it ends
   * with corners 1 and 2, the apex and corner 3.
   */
  lemma WireframeShape<C>(vertices: seq<Point<C>>)
    requires |vertices| == VerticesPerCamera
    ensures |Wireframe(vertices)| == 10
    ensures forall j :: 0 <= j < 10 ==> Wireframe(vertices)[j] in vertices
    ensures Wireframe(vertices)[..4] == vertices[..4]
    ensures Wireframe(vertices)[4] == vertices[0]
    ensures Wireframe(vertices)[5] == vertices[Apex] == vertices[|vertices| - 1]
    ensures Wireframe(vertices)[6..] == [vertices[1], vertices[2], vertices[Apex], vertices[3]]
  {
  }

  /** Positions `j` and `j + 1` of the wireframe join vertices `u` and `v`, in either direction. */
  predicate Segment(j: nat, u: nat, v: nat)
    requires j + 1 < |WireframeOrder|
  {
    (WireframeOrder[j] == u && WireframeOrder[j + 1] == v) ||
    (WireframeOrder[j] == v && WireframeOrder[j + 1] == u)
  }

  /** Every side edge to the apex and every front-plane edge is a segment of the wireframe. */
  lemma WireframeTracesEdges(u: nat, v: nat)
    requires u < 4 && (v == Apex || v == (u + 1) % 4)
    ensures exists j :: 0 <= j < |WireframeOrder| - 1 && Segment(j, u, v)
  {
    var o := WireframeOrder;
    if v == Apex {
      if u == 0 { assert Segment(4, u, v); }
      else if u == 1 { assert Segment(5, u, v); }
      else if u == 2 { assert Segment(7, u, v); }
      else { assert Segment(8, u, v); }
    } else {
      assert Segment(u, u, v);
    }
  }

  /** What `get_camera_mesh` returns for a batch of cameras. */
  datatype CameraMeshes<C> = CameraMeshes(
    vertices: seq<seq<Point<C>>>,
    faces: seq<Face>,
    wireframes: seq<seq<Point<C>>>)

  /** Rows of five world-space vertices per camera, with one face table and one wireframe per camera. */
  predicate WorldVertices<C>(world: seq<seq<Point<C>>>)
  {
    forall i :: 0 <= i < |world| ==> |world[i]| == VerticesPerCamera
  }

  function GetCameraMesh<C>(world: seq<seq<Point<C>>>): (m: CameraMeshes<C>)
    requires WorldVertices(world)
    ensures |m.wireframes| == |m.vertices| == |world|
    ensures forall i :: 0 <= i < |world| ==>
      |m.wireframes[i]| == 10 && m.wireframes[i][5] == world[i][VerticesPerCamera - 1]
  {
    CameraMeshes(world, FaceTable(),
      seq(|world|, i requires 0 <= i < |world| => Wireframe(world[i])))
  }

  /**
   * For every camera of the batch: five vertices kept as given, the constant
   * face table, and a wireframe that selects that camera's vertices in
   * `WireframeOrder`, so that its point 5 is the camera's last vertex, the apex.
   */
  lemma GetCameraMeshShape<C>(world: seq<seq<Point<C>>>, i: nat)
    requires WorldVertices(world) && i < |world|
    ensures GetCameraMesh(world).vertices == world
    ensures GetCameraMesh(world).faces == FaceTable()
    ensures |GetCameraMesh(world).wireframes[i]| == 10
    ensures GetCameraMesh(world).wireframes[i][5] == world[i][Apex] == world[i][|world[i]| - 1]
    ensures GetCameraMesh(world).wireframes[i] == Wireframe(world[i])
    ensures GetCameraMesh(world).wireframes[i] ==
      [world[i][0], world[i][1], world[i][2], world[i][3], world[i][0],
       world[i][Apex], world[i][1], world[i][2], world[i][Apex], world[i][3]]
  {
    WireframeShape(world[i]);
  }

  /** One flattened mesh. */
  datatype Mesh<C> = Mesh(vertices: seq<Point<C>>, faces: seq<Face>)

  function ShiftAll(faces: seq<Face>, offset: nat): (r: seq<Face>)
    ensures |r| == |faces|
  {
    seq(|faces|, f requires 0 <= f < |faces| => faces[f].Shift(offset))
  }

  /** A batch of meshes: at least one, and all with the same number of vertices. */
  predicate MeshBatch<C>(vertices: seq<seq<Point<C>>>)
  {
    |vertices| > 0 && forall i :: 0 <= i < |vertices| ==> |vertices[i]| == |vertices[0]|
  }

  /**
   * `merge_meshes`: mesh `i`'s faces, shifted by `i` times the vertex count,
   * concatenated in mesh order; the vertices flattened row-major.
   */
  function MergeMeshes<C>(vertices: seq<seq<Point<C>>>, faces: seq<Face>): (m: Mesh<C>)
    requires MeshBatch(vertices)
    ensures |m.vertices| == |vertices| * |vertices[0]|
    ensures |m.faces| == |vertices| * |faces|
  {
    var vertexN := |vertices[0]|;
    var blocks := seq(|vertices|, i requires 0 <= i < |vertices| => ShiftAll(faces, i * vertexN));
    UniformTotalLength(vertices, vertexN);
    UniformTotalLength(blocks, |faces|);
    Mesh(Concat(vertices), Concat(blocks))
  }

  /** Merged vertex `i * vertexN + k` is vertex `k` of mesh `i`; there are `meshN * vertexN` of them. */
  lemma MergeMeshesVertexAt<C>(vertices: seq<seq<Point<C>>>, faces: seq<Face>, i: nat, k: nat)
    requires MeshBatch(vertices)
    requires i < |vertices| && k < |vertices[0]|
    ensures |MergeMeshes(vertices, faces).vertices| == |vertices| * |vertices[0]|
    ensures i * |vertices[0]| + k < |MergeMeshes(vertices, faces).vertices|
    ensures MergeMeshes(vertices, faces).vertices[i * |vertices[0]| + k] == vertices[i][k]
  {
    ConcatUniformAt(vertices, |vertices[0]|, i, k);
  }

  /** Merged face `i * |faces| + f` is face `f` shifted by `i * vertexN`; there are `meshN * |faces|` of them. */
  lemma MergeMeshesFaceAt<C>(vertices: seq<seq<Point<C>>>, faces: seq<Face>, i: nat, f: nat)
    requires MeshBatch(vertices)
    requires i < |vertices| && f < |faces|
    ensures |MergeMeshes(vertices, faces).faces| == |vertices| * |faces|
    ensures i * |faces| + f < |MergeMeshes(vertices, faces).faces|
    ensures MergeMeshes(vertices, faces).faces[i * |faces| + f] == faces[f].Shift(i * |vertices[0]|)
  {
    var vertexN := |vertices[0]|;
    var blocks := seq(|vertices|, j requires 0 <= j < |vertices| => ShiftAll(faces, j * vertexN));
    ConcatUniformAt(blocks, |faces|, i, f);
  }

  lemma MulBelow(i: nat, n: nat, meshN: nat)
    requires i < meshN
    ensures i * n + n <= meshN * n
  {
    assert meshN * n == i * n + (meshN - i) * n;
    assert (meshN - i) * n >= n by {
      assert (meshN - i) * n == n + (meshN - i - 1) * n;
    }
  }

  /** A position below `meshN * len` splits into a block `i < meshN` and an offset `k < len`. */
  lemma DivideBlock(g: nat, len: nat, meshN: nat) returns (i: nat, k: nat)
    requires g < meshN * len
    ensures i < meshN && k < len && g == i * len + k
  {
    i, k := g / len, g % len;
    if i >= meshN {
      MulBelow(meshN - 1, len, i);
      assert false;
    }
  }

  /** Faces valid for one mesh stay valid for the flattened vertex list. */
  lemma {:induction false} MergeMeshesInRange<C>(vertices: seq<seq<Point<C>>>, faces: seq<Face>)
    requires MeshBatch(vertices)
    requires forall f :: 0 <= f < |faces| ==> faces[f].Below(|vertices[0]|)
    ensures forall g :: 0 <= g < |MergeMeshes(vertices, faces).faces| ==>
      MergeMeshes(vertices, faces).faces[g].Below(|MergeMeshes(vertices, faces).vertices|)
  {
    var m := MergeMeshes(vertices, faces);
    var vertexN := |vertices[0]|;
    var blocks := seq(|vertices|, j requires 0 <= j < |vertices| => ShiftAll(faces, j * vertexN));
    UniformTotalLength(vertices, vertexN);
    UniformTotalLength(blocks, |faces|);
    forall g | 0 <= g < |m.faces|
      ensures m.faces[g].Below(|m.vertices|)
    {
      var i, f := DivideBlock(g, |faces|, |vertices|);
      MergeMeshesFaceAt(vertices, faces, i, f);
      MulBelow(i, vertexN, |vertices|);
    }
  }
}
