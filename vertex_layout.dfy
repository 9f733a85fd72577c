/** Where the torus builder stores its vertices: `segments` rings of `points`
    vertices each, ring after ring, in one flat buffer of `points * segments`
    slots. The floating-point position of a vertex is abstracted as a value of
    type V produced by a caller-supplied function `place(ring, point)`. */
module VertexLayout {
  import opened ModularArith

  /** Slot of vertex `i` of ring `j`. */
  function Slot(points: nat, j: nat, i: nat): nat
    requires i < points
  {
    j * points + i
  }

  /** Division by `points` recovers the ring and the ring point from a slot,
      so the layout loses nothing. */
  lemma SlotDecode(points: nat, j: nat, i: nat)
    requires i < points
    ensures Slot(points, j, i) / points == j && Slot(points, j, i) % points == i
  {
    DivModUnique(j * points + i, points, j, i);
  }

  /** Distinct (ring, point) pairs land in distinct slots. */
  lemma SlotInjective(points: nat, j: nat, i: nat, j': nat, i': nat)
    requires i < points && i' < points
    requires Slot(points, j, i) == Slot(points, j', i')
    ensures j == j' && i == i'
  {
    SlotDecode(points, j, i);
    SlotDecode(points, j', i');
  }

  /** A slot of a vertex on one of the `segments` rings is inside the buffer. */
  lemma SlotInRange(points: nat, segments: nat, j: nat, i: nat)
    requires j < segments && i < points
    ensures Slot(points, j, i) < points * segments
  {
    MulLeft(j + 1, segments, points);
  }

  /** Every slot of the buffer belongs to some vertex: slot k is vertex
      k % points of ring k / points, and that ring exists. */
  lemma SlotOnto(points: nat, segments: nat, k: nat)
    requires k < points * segments
    ensures 0 < points && k / points < segments
    ensures Slot(points, k / points, k % points) == k
  {
    MulLeft(segments, k / points, points);
    DivModUnique(k, points, k / points, k % points);
  }

  /** The buffer the vertex loop leaves behind, described slot by slot. */
  function Layout<V>(points: nat, segments: nat, place: (nat, nat) -> V): (vs: seq<V>)
    ensures |vs| == points * segments
  {
    seq(points * segments, k requires 0 <= k < points * segments =>
      SlotOnto(points, segments, k);
      place(k / points, k % points))
  }

  /** Reading the layout back at the slot of (j, i) gives the position of (j, i). */
  lemma LayoutAtSlot<V>(points: nat, segments: nat, place: (nat, nat) -> V, j: nat, i: nat)
    requires j < segments && i < points
    ensures Slot(points, j, i) < |Layout(points, segments, place)|
    ensures Layout(points, segments, place)[Slot(points, j, i)] == place(j, i)
  {
    SlotInRange(points, segments, j, i);
    SlotDecode(points, j, i);
  }

  /** The vertex loop: for each ring j and each point i, the position of
      (j, i) is stored at slot `j * points + i`. The ghost result lists the
      slots in the order they were written. */
  method FillVertices<V>(vertices: array<V>, points: nat, segments: nat, place: (nat, nat) -> V)
    returns (ghost written: seq<nat>)
    requires vertices.Length == points * segments
    modifies vertices
    ensures vertices[..] == Layout(points, segments, place)
    ensures |written| == vertices.Length && forall n :: 0 <= n < |written| ==> written[n] == n
  {
    ghost var layout := Layout(points, segments, place);
    written := [];
    var j := 0;
    while j < segments
      invariant 0 <= j <= segments
      invariant j * points <= vertices.Length
      invariant |written| == j * points
      invariant forall n :: 0 <= n < |written| ==> written[n] == n
      invariant forall k :: 0 <= k < j * points ==> vertices[k] == layout[k]
    {
      var i := 0;
      while i < points
        invariant 0 <= i <= points
        invariant j * points + i <= vertices.Length
        invariant |written| == j * points + i
        invariant forall n :: 0 <= n < |written| ==> written[n] == n
        invariant forall k :: 0 <= k < j * points + i ==> vertices[k] == layout[k]
      {
        LayoutAtSlot(points, segments, place, j, i);
        vertices[j * points + i] := place(j, i);
        written := written + [j * points + i];
        i := i + 1;
      }
      MulLeft(j + 1, segments, points);
      j := j + 1;
    }
  }
}
