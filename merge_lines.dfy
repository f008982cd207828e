/**
 * Line traces for the scene payload: `merge_wireframes` and `merge_centers`
 * grow one list per axis, appending each polyline's coordinates and a `None`
 * break marker.
 */
module MergeLines {
  import opened Wrappers
  import opened Polyline
  import opened CameraMesh

  /** One coordinate of every point of a polyline, in order. */
  function Column<C>(points: seq<Point<C>>, axis: Axis): (r: seq<C>)
    ensures |r| == |points|
  {
    seq(|points|, k requires 0 <= k < |points| => points[k].Coord(axis))
  }

  function Columns<C>(wireframes: seq<seq<Point<C>>>, axis: Axis): (r: seq<seq<C>>)
    ensures |r| == |wireframes|
  {
    seq(|wireframes|, i requires 0 <= i < |wireframes| => Column(wireframes[i], axis))
  }

  /** `merge_wireframes`: per axis, every wireframe's coordinates followed by a break marker. */
  method MergeWireframes<C>(wireframes: seq<seq<Point<C>>>) returns (xs: seq<Option<C>>, ys: seq<Option<C>>, zs: seq<Option<C>>)
    ensures xs == Join(Columns(wireframes, X))
    ensures ys == Join(Columns(wireframes, Y))
    ensures zs == Join(Columns(wireframes, Z))
  {
    xs, ys, zs := [], [], [];
    for i := 0 to |wireframes|
      invariant xs == Join(Columns(wireframes[..i], X))
      invariant ys == Join(Columns(wireframes[..i], Y))
      invariant zs == Join(Columns(wireframes[..i], Z))
    {
      var w := wireframes[i];
      assert wireframes[..i + 1] == wireframes[..i] + [w];
      ColumnsAppend(wireframes[..i], w);
      JoinAppend(Columns(wireframes[..i], X), Column(w, X));
      JoinAppend(Columns(wireframes[..i], Y), Column(w, Y));
      JoinAppend(Columns(wireframes[..i], Z), Column(w, Z));
      xs := xs + Terminated(Column(w, X));
      ys := ys + Terminated(Column(w, Y));
      zs := zs + Terminated(Column(w, Z));
    }
    assert wireframes[..|wireframes|] == wireframes;
  }

  lemma ColumnsAppend<C>(wireframes: seq<seq<Point<C>>>, w: seq<Point<C>>)
    ensures forall axis :: Columns(wireframes + [w], axis) == Columns(wireframes, axis) + [Column(w, axis)]
  {
  }

  /** Merged trace of one axis splits back into each wireframe's coordinate column, in input order. */
  lemma WireframeTraceRoundTrip<C>(wireframes: seq<seq<Point<C>>>, axis: Axis)
    ensures Split(Join(Columns(wireframes, axis))) == Columns(wireframes, axis)
    ensures |Join(Columns(wireframes, axis))| == TraceLength(Columns(wireframes, axis))
  {
    SplitJoin(Columns(wireframes, axis));
    JoinLength(Columns(wireframes, axis));
  }

  /**
   * For wireframes of a common length `len` the trace has `len + 1` entries per
   * wireframe; entry `i * (len + 1) + len` is the break marker and the others are
   * the coordinates of the points of wireframe `i`.
   */
  lemma WireframeTraceAt<C>(wireframes: seq<seq<Point<C>>>, axis: Axis, len: nat, i: nat, k: nat)
    requires forall j :: 0 <= j < |wireframes| ==> |wireframes[j]| == len
    requires i < |wireframes| && k <= len
    ensures |Join(Columns(wireframes, axis))| == |wireframes| * (len + 1)
    ensures i * (len + 1) + k < |Join(Columns(wireframes, axis))|
    ensures Join(Columns(wireframes, axis))[i * (len + 1) + k] ==
      if k < len then Some(wireframes[i][k].Coord(axis)) else None
  {
    var columns := Columns(wireframes, axis);
    assert forall j :: 0 <= j < |columns| ==> |columns[j]| == len;
    JoinUniformAt(columns, len, i, k);
    if k < len {
      assert columns[i][k] == wireframes[i][k].Coord(axis);
    }
  }

  function Min(a: nat, b: nat): nat
  {
    if a <= b then a else b
  }

  /** The two-point segment of each pair of centres, for one axis; `zip` stops at the shorter list. */
  function CenterPairs<C>(c1s: seq<Point<C>>, c2s: seq<Point<C>>, axis: Axis): (r: seq<seq<C>>)
    ensures |r| == Min(|c1s|, |c2s|)
  {
    seq(Min(|c1s|, |c2s|), i requires 0 <= i < Min(|c1s|, |c2s|) => [c1s[i].Coord(axis), c2s[i].Coord(axis)])
  }

  /** Entries `3i`, `3i + 1`, `3i + 2` of a centre trace: first centre, second centre, break marker. */
  ghost predicate CenterLayout<C>(trace: seq<Option<C>>, c1s: seq<Point<C>>, c2s: seq<Point<C>>, axis: Axis)
  {
    |trace| == 3 * Min(|c1s|, |c2s|) &&
    forall i :: 0 <= i < Min(|c1s|, |c2s|) ==>
      trace[3 * i] == Some(c1s[i].Coord(axis)) &&
      trace[3 * i + 1] == Some(c2s[i].Coord(axis)) &&
      trace[3 * i + 2] == None
  }

  lemma CenterTraceLayout<C>(c1s: seq<Point<C>>, c2s: seq<Point<C>>, axis: Axis)
    ensures CenterLayout(Join(CenterPairs(c1s, c2s, axis)), c1s, c2s, axis)
  {
    var pairs := CenterPairs(c1s, c2s, axis);
    var n := Min(|c1s|, |c2s|);
    if n == 0 {
      assert Join(pairs) == [];
    } else {
      JoinUniformAt(pairs, 2, 0, 0);
      forall i | 0 <= i < n
        ensures Join(pairs)[3 * i] == Some(c1s[i].Coord(axis))
        ensures Join(pairs)[3 * i + 1] == Some(c2s[i].Coord(axis))
        ensures Join(pairs)[3 * i + 2] == None
      {
        JoinUniformAt(pairs, 2, i, 0);
        JoinUniformAt(pairs, 2, i, 1);
        JoinUniformAt(pairs, 2, i, 2);
      }
    }
  }

  /**
   * `merge_centers` over two centre sets: per axis, for each pair the first
   * centre, the second centre and a break marker, so each pair is drawn as
   * its own segment.
   */
  method MergeCenters<C>(c1s: seq<Point<C>>, c2s: seq<Point<C>>) returns (xs: seq<Option<C>>, ys: seq<Option<C>>, zs: seq<Option<C>>)
    ensures xs == Join(CenterPairs(c1s, c2s, X)) && CenterLayout(xs, c1s, c2s, X)
    ensures ys == Join(CenterPairs(c1s, c2s, Y)) && CenterLayout(ys, c1s, c2s, Y)
    ensures zs == Join(CenterPairs(c1s, c2s, Z)) && CenterLayout(zs, c1s, c2s, Z)
  {
    var n := Min(|c1s|, |c2s|);
    xs, ys, zs := [], [], [];
    for i := 0 to n
      invariant xs == Join(CenterPairs(c1s, c2s, X)[..i])
      invariant ys == Join(CenterPairs(c1s, c2s, Y)[..i])
      invariant zs == Join(CenterPairs(c1s, c2s, Z)[..i])
    {
      var c1, c2 := c1s[i], c2s[i];
      PairStep(c1s, c2s, X, i);
      PairStep(c1s, c2s, Y, i);
      PairStep(c1s, c2s, Z, i);
      xs := xs + [Some(c1.x), Some(c2.x), None];
      ys := ys + [Some(c1.y), Some(c2.y), None];
      zs := zs + [Some(c1.z), Some(c2.z), None];
    }
    assert CenterPairs(c1s, c2s, X)[..n] == CenterPairs(c1s, c2s, X);
    assert CenterPairs(c1s, c2s, Y)[..n] == CenterPairs(c1s, c2s, Y);
    assert CenterPairs(c1s, c2s, Z)[..n] == CenterPairs(c1s, c2s, Z);
    CenterTraceLayout(c1s, c2s, X);
    CenterTraceLayout(c1s, c2s, Y);
    CenterTraceLayout(c1s, c2s, Z);
  }

  lemma PairStep<C>(c1s: seq<Point<C>>, c2s: seq<Point<C>>, axis: Axis, i: nat)
    requires i < Min(|c1s|, |c2s|)
    ensures Join(CenterPairs(c1s, c2s, axis)[..i + 1]) ==
      Join(CenterPairs(c1s, c2s, axis)[..i]) + [Some(c1s[i].Coord(axis)), Some(c2s[i].Coord(axis)), None]
  {
    var pairs := CenterPairs(c1s, c2s, axis);
    assert pairs[..i + 1] == pairs[..i] + [pairs[i]];
    JoinAppend(pairs[..i], pairs[i]);
    assert Terminated(pairs[i]) == [Some(c1s[i].Coord(axis)), Some(c2s[i].Coord(axis)), None];
  }

  /**
   * The payload built for N cameras: merging their meshes gives 5N vertices and
   * 6N faces whose indices are all below 5N; each axis' wireframe trace has 11N
   * entries with a break marker at 11i + 10; the centre each camera contributes
   * (its last vertex) is point 5 of its wireframe.
   */
  lemma CameraPayload<C>(world: seq<seq<Point<C>>>, axis: Axis, i: nat)
    requires WorldVertices(world) && i < |world|
    ensures |MergeMeshes(world, FaceTable()).vertices| == 5 * |world|
    ensures |MergeMeshes(world, FaceTable()).faces| == 6 * |world|
    ensures forall g :: 0 <= g < |MergeMeshes(world, FaceTable()).faces| ==>
      MergeMeshes(world, FaceTable()).faces[g].Below(5 * |world|)
    ensures |Join(Columns(GetCameraMesh(world).wireframes, axis))| == 11 * |world|
    ensures Join(Columns(GetCameraMesh(world).wireframes, axis))[11 * i + 10] == None
    ensures Join(Columns(GetCameraMesh(world).wireframes, axis))[11 * i + 5] == Some(world[i][|world[i]| - 1].Coord(axis))
  {
    var m := GetCameraMesh(world);
    var faces := FaceTable();
    MergeMeshesVertexAt(world, faces, 0, 0);
    MergeMeshesFaceAt(world, faces, 0, 0);
    MergeMeshesInRange(world, faces);
    forall j | 0 <= j < |m.wireframes|
      ensures |m.wireframes[j]| == 10
    {
      GetCameraMeshShape(world, j);
    }
    GetCameraMeshShape(world, i);
    WireframeTraceAt(m.wireframes, axis, 10, i, 10);
    WireframeTraceAt(m.wireframes, axis, 10, i, 5);
  }
}
