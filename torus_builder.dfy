/** The torus builder's start-up step: allocate the vertex and triangle
    buffers from the `points` and `segments` settings, fill the vertex
    buffer ring by ring and fill the triangle buffer through a running
    cursor. */
module TorusBuilder {
  import opened ModularArith
  import opened VertexLayout
  import opened TriangleBuffer

  const Int32Min: int := -0x8000_0000
  const Int32Max: int := 0x7fff_ffff

  predicate IsInt32(x: int)
  {
    Int32Min <= x <= Int32Max
  }

  /** Allocating an array with a negative length raises the runtime's
      overflow exception. */
  datatype BuildError = NegativeArrayLength

  datatype Result<T> = Ok(value: T) | Err(error: BuildError)

  /** The two buffers handed to the mesh. */
  datatype Mesh<V> = Mesh(vertices: array<V>, triangles: array<int>)

  /** The triangle loop: quad by quad, ring by ring, six indices are written
      at the cursor `t`, which is returned. */
  method FillTriangles(triangles: array<int>, points: nat, segments: nat) returns (t: nat)
    requires triangles.Length == segments * points * 6
    modifies triangles
    ensures t == triangles.Length
    ensures triangles[..] == IndexBuffer(points, segments)
  {
    ghost var target := Sweep(points, segments, segments);
    t := 0;
    var seg := 0;
    while seg < segments
      invariant 0 <= seg <= segments
      invariant t == 6 * (seg * points) <= triangles.Length
      invariant forall k :: 0 <= k < t ==> triangles[k] == target[k]
    {
      var nextSeg := (seg + 1) % segments;
      var i := 0;
      while i < points
        invariant 0 <= i <= points
        invariant t == 6 * (seg * points) + 6 * i <= triangles.Length
        invariant forall k :: 0 <= k < t ==> triangles[k] == target[k]
      {
        var a := seg * points + i;
        var b := seg * points + (i + 1) % points;
        var aNext := nextSeg * points + i;
        var bNext := nextSeg * points + (i + 1) % points;
        assert t + 6 <= triangles.Length &&
               target[t] == a && target[t + 1] == b && target[t + 2] == aNext &&
               target[t + 3] == b && target[t + 4] == bNext && target[t + 5] == aNext by {
          QuadInSweep(points, segments, seg, i, t);
        }

        triangles[t] := a;
        t := t + 1;
        triangles[t] := b;
        t := t + 1;
        triangles[t] := aNext;
        t := t + 1;

        triangles[t] := b;
        t := t + 1;
        triangles[t] := bNext;
        t := t + 1;
        triangles[t] := aNext;
        t := t + 1;

        i := i + 1;
      }
      assert t == 6 * ((seg + 1) * points) <= triangles.Length by {
        MulLeft(seg + 1, segments, points);
      }
      seg := seg + 1;
    }
    SweepIsIndexBuffer(points, segments);
  }

  /** The whole start-up step for the settings `points` and `segments`.
      `place(j, i)` stands for the position the trigonometry computes for
      point i of ring j, and `origin` for the zero vector that fills a fresh
      vertex buffer. A negative buffer length fails as the runtime does; a
      negative setting otherwise just makes its loop run zero times. */
  method Start<V>(points: int, segments: int, place: (nat, nat) -> V, origin: V) returns (r: Result<Mesh<V>>)
    requires IsInt32(points) && IsInt32(segments) && IsInt32(segments * points * 6)
    ensures r.Err? <==> points * segments < 0
    ensures r.Ok? ==> fresh(r.value.vertices) && fresh(r.value.triangles)
    ensures r.Ok? ==> r.value.vertices.Length == points * segments
    ensures r.Ok? ==> r.value.triangles.Length == segments * points * 6
    ensures r.Ok? && 0 <= points && 0 <= segments ==>
      r.value.vertices[..] == Layout(points, segments, place) &&
      r.value.triangles[..] == IndexBuffer(points, segments)
    ensures r.Ok? && (points < 0 || segments < 0) ==>
      (forall k :: 0 <= k < r.value.vertices.Length ==> r.value.vertices[k] == origin) &&
      (forall k :: 0 <= k < r.value.triangles.Length ==> r.value.triangles[k] == 0)
  {
    if points * segments < 0 {
      return Err(NegativeArrayLength);
    }
    var vertices := new V[points * segments](_ => origin);
    var triangles := new int[segments * points * 6](_ => 0);
    if 0 <= points && 0 <= segments {
      ghost var written := FillVertices(vertices, points, segments, place);
      var t := FillTriangles(triangles, points, segments);
    }
    r := Ok(Mesh(vertices, triangles));
  }
}
