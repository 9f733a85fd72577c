/** The triangle index buffer of the torus: for every ring `seg` and every
    ring point `i` the quad between rings `seg` and `(seg + 1) % segments` and
    between points `i` and `(i + 1) % points` emits two triangles, six indices
    in all, quads taken ring by ring in sweep order. */
module TriangleBuffer {
  import opened ModularArith
  import opened VertexLayout

  /** The four vertex slots at the corners of one quad. */
  datatype Quad = Quad(a: nat, b: nat, aNext: nat, bNext: nat)

  /** Corners of quad (seg, i): `a` and `b` on ring seg, `aNext` and `bNext`
      on the following ring, which for the last ring is ring 0 again. */
  function QuadAt(points: nat, segments: nat, seg: nat, i: nat): Quad
    requires seg < segments && i < points
  {
    var nextSeg := CyclicNext(seg, segments);
    var nextI := CyclicNext(i, points);
    Quad(Slot(points, seg, i), Slot(points, seg, nextI), Slot(points, nextSeg, i), Slot(points, nextSeg, nextI))
  }

  /** The six indices a quad contributes: triangle (a, b, aNext), then
      triangle (b, bNext, aNext). */
  function Emit(q: Quad): seq<int>
  {
    [q.a, q.b, q.aNext, q.b, q.bNext, q.aNext]
  }

  /** Entry k of the buffer: corner k % 6 of quad k / 6, where quad number
      q stands for ring q / points and ring point q % points. */
  function Entry(points: nat, segments: nat, k: nat): int
    requires k < points * segments * 6
  {
    var q := k / 6;
    SlotOnto(points, segments, q);
    Emit(QuadAt(points, segments, q / points, q % points))[k % 6]
  }

  /** The whole buffer, entry by entry. */
  function IndexBuffer(points: nat, segments: nat): (buf: seq<int>)
    ensures |buf| == points * segments * 6
  {
    seq(points * segments * 6, k requires 0 <= k < points * segments * 6 => Entry(points, segments, k))
  }

  /** Quad numbers are the vertex slots: quad (seg, i) owns entries
      6 * Slot(seg, i) to 6 * Slot(seg, i) + 5 and nothing else. */
  lemma EntryOfQuad(points: nat, segments: nat, seg: nat, i: nat, c: nat)
    requires seg < segments && i < points && c < 6
    ensures 6 * Slot(points, seg, i) + c < points * segments * 6
    ensures (6 * Slot(points, seg, i) + c) % 6 == c
    ensures IndexBuffer(points, segments)[6 * Slot(points, seg, i) + c] == Emit(QuadAt(points, segments, seg, i))[c]
  {
    var q := Slot(points, seg, i);
    SlotInRange(points, segments, seg, i);
    SlotDecode(points, seg, i);
    DivModUnique(6 * q + c, 6, q, c);
  }

  /** Conversely, every entry k belongs to corner k % 6 of the quad numbered
      k / 6, that is, of ring (k / 6) / points and ring point (k / 6) % points. */
  lemma EntryDecode(points: nat, segments: nat, k: nat)
    requires k < points * segments * 6
    ensures 0 < points && (k / 6) / points < segments
    ensures k == 6 * Slot(points, (k / 6) / points, (k / 6) % points) + k % 6
    ensures IndexBuffer(points, segments)[k] ==
      Emit(QuadAt(points, segments, (k / 6) / points, (k / 6) % points))[k % 6]
  {
    var q := k / 6;
    assert q < points * segments;
    SlotOnto(points, segments, q);
  }

  /** Quad (seg, i) occupies the six entries from `6 * Slot(seg, i)` on. */
  lemma QuadEntries(points: nat, segments: nat, seg: nat, i: nat)
    requires seg < segments && i < points
    ensures var base := 6 * Slot(points, seg, i);
            base + 6 <= |IndexBuffer(points, segments)| &&
            IndexBuffer(points, segments)[base..base + 6] == Emit(QuadAt(points, segments, seg, i))
  {
    var buf := IndexBuffer(points, segments);
    var base := 6 * Slot(points, seg, i);
    EntryOfQuad(points, segments, seg, i, 5);
    forall c | 0 <= c < 6
      ensures buf[base + c] == Emit(QuadAt(points, segments, seg, i))[c]
    {
      EntryOfQuad(points, segments, seg, i, c);
    }
  }

  /** The corners of quad (seg, i), written out as the builder computes them. */
  lemma QuadFormula(points: nat, segments: nat, seg: nat, i: nat)
    requires seg < segments && i < points
    ensures QuadAt(points, segments, seg, i) ==
      Quad(seg * points + i, seg * points + (i + 1) % points,
           ((seg + 1) % segments) * points + i, ((seg + 1) % segments) * points + (i + 1) % points)
  {
    assert CyclicNext(i, points) == (i + 1) % points;
    assert CyclicNext(seg, segments) == (seg + 1) % segments;
  }

  /** The six entries of quad (seg, i) are `a, b, aNext, b, bNext, aNext`. */
  lemma QuadPattern(points: nat, segments: nat, seg: nat, i: nat)
    requires seg < segments && i < points
    ensures var base := 6 * (seg * points + i);
            var a := seg * points + i;
            var b := seg * points + (i + 1) % points;
            var aNext := ((seg + 1) % segments) * points + i;
            var bNext := ((seg + 1) % segments) * points + (i + 1) % points;
            base + 6 <= |IndexBuffer(points, segments)| &&
            IndexBuffer(points, segments)[base..base + 6] == [a, b, aNext, b, bNext, aNext]
  {
    QuadEntries(points, segments, seg, i);
    QuadFormula(points, segments, seg, i);
  }

  /** The entries the triangle loop emits for quads 0 .. n-1 of ring seg,
      in the order it emits them. */
  function Strip(points: nat, segments: nat, seg: nat, n: nat): (r: seq<int>)
    requires seg < segments && n <= points
    ensures |r| == 6 * n
  {
    if n == 0 then [] else Strip(points, segments, seg, n - 1) + Emit(QuadAt(points, segments, seg, n - 1))
  }

  /** The entries the triangle loop emits for rings 0 .. m-1, in order. */
  function Sweep(points: nat, segments: nat, m: nat): (r: seq<int>)
    requires m <= segments
    ensures |r| == 6 * (m * points)
  {
    if m == 0 then []
    else
      assert (m - 1) * points + points == m * points;
      Sweep(points, segments, m - 1) + Strip(points, segments, m - 1, points)
  }

  /** Within a ring, quad i's six entries start at offset 6 * i. */
  lemma {:induction false} StripAt(points: nat, segments: nat, seg: nat, n: nat, i: nat, c: nat)
    requires seg < segments && i < n <= points && c < 6
    ensures Strip(points, segments, seg, n)[6 * i + c] == Emit(QuadAt(points, segments, seg, i))[c]
    decreases n
  {
    if i < n - 1 {
      StripAt(points, segments, seg, n - 1, i, c);
    }
  }

  /** In the loop's output, quad (seg, i)'s six entries start at
      6 * Slot(seg, i). */
  lemma {:induction false} SweepAt(points: nat, segments: nat, m: nat, seg: nat, i: nat, c: nat)
    requires seg < m <= segments && i < points && c < 6
    ensures 6 * Slot(points, seg, i) + c < |Sweep(points, segments, m)|
    ensures Sweep(points, segments, m)[6 * Slot(points, seg, i) + c] == Emit(QuadAt(points, segments, seg, i))[c]
    decreases m
  {
    SlotInRange(points, m, seg, i);
    if seg < m - 1 {
      SlotInRange(points, m - 1, seg, i);
      SweepAt(points, segments, m - 1, seg, i, c);
    } else {
      StripAt(points, segments, seg, points, i, c);
    }
  }

  /** When the cursor t has passed rings 0 .. seg-1 and quads 0 .. i-1 of ring
      seg, the next six entries of the loop's output are `a, b, aNext, b,
      bNext, aNext` of quad (seg, i), computed as the loop computes them. */
  lemma QuadInSweep(points: nat, segments: nat, seg: nat, i: nat, t: nat)
    requires seg < segments && i < points && t == 6 * (seg * points) + 6 * i
    ensures var sweep := Sweep(points, segments, segments);
            var a := seg * points + i;
            var b := seg * points + (i + 1) % points;
            var aNext := ((seg + 1) % segments) * points + i;
            var bNext := ((seg + 1) % segments) * points + (i + 1) % points;
            t + 6 <= |sweep| &&
            sweep[t] == a && sweep[t + 1] == b && sweep[t + 2] == aNext &&
            sweep[t + 3] == b && sweep[t + 4] == bNext && sweep[t + 5] == aNext
  {
    assert t == 6 * Slot(points, seg, i);
    QuadFormula(points, segments, seg, i);
    SweepAt(points, segments, segments, seg, i, 0);
    SweepAt(points, segments, segments, seg, i, 1);
    SweepAt(points, segments, segments, seg, i, 2);
    SweepAt(points, segments, segments, seg, i, 3);
    SweepAt(points, segments, segments, seg, i, 4);
    SweepAt(points, segments, segments, seg, i, 5);
  }

  /** Emitting quad after quad, ring after ring, lays out exactly the buffer
      IndexBuffer describes entry by entry. */
  lemma SweepIsIndexBuffer(points: nat, segments: nat)
    ensures Sweep(points, segments, segments) == IndexBuffer(points, segments)
  {
    var sweep, buf := Sweep(points, segments, segments), IndexBuffer(points, segments);
    assert |sweep| == |buf|;
    forall k | 0 <= k < |buf|
      ensures sweep[k] == buf[k]
    {
      var q := k / 6;
      SlotOnto(points, segments, q);
      var seg, i := q / points, q % points;
      EntryOfQuad(points, segments, seg, i, k % 6);
      SweepAt(points, segments, segments, seg, i, k % 6);
    }
  }

  /** The corners of every quad are slots of the vertex buffer. */
  lemma QuadInRange(points: nat, segments: nat, seg: nat, i: nat)
    requires seg < segments && i < points
    ensures var q := QuadAt(points, segments, seg, i);
            q.a < points * segments && q.b < points * segments &&
            q.aNext < points * segments && q.bNext < points * segments
  {
    var nextSeg := CyclicNext(seg, segments);
    var nextI := CyclicNext(i, points);
    SlotInRange(points, segments, seg, i);
    SlotInRange(points, segments, seg, nextI);
    SlotInRange(points, segments, nextSeg, i);
    SlotInRange(points, segments, nextSeg, nextI);
  }

  /** Every index the buffer holds is a valid index into the vertex buffer of
      `points * segments` slots. */
  lemma IndexBufferInRange(points: nat, segments: nat)
    ensures forall k :: 0 <= k < |IndexBuffer(points, segments)| ==>
      0 <= IndexBuffer(points, segments)[k] < points * segments
  {
    forall k | 0 <= k < |IndexBuffer(points, segments)|
      ensures 0 <= IndexBuffer(points, segments)[k] < points * segments
    {
      var q := k / 6;
      SlotOnto(points, segments, q);
      QuadInRange(points, segments, q / points, q % points);
    }
  }

  /** The sweep closes: the quads of the last ring take ring 0 as their next ring. */
  lemma SweepWraps(points: nat, segments: nat, i: nat)
    requires 0 < segments && i < points
    ensures var base := 6 * Slot(points, segments - 1, i);
            var buf := IndexBuffer(points, segments);
            base + 6 <= |buf| &&
            buf[base + 2] == i && buf[base + 5] == i && buf[base + 4] == (i + 1) % points
  {
    var last := segments - 1;
    assert CyclicNext(last, segments) == 0;
    assert Slot(points, 0, i) == i;
    assert Slot(points, 0, CyclicNext(i, points)) == (i + 1) % points;
    EntryOfQuad(points, segments, last, i, 2);
    EntryOfQuad(points, segments, last, i, 4);
    EntryOfQuad(points, segments, last, i, 5);
  }

  /** Each ring closes: the quad at the last ring point takes point 0 of the
      same two rings as its `b` and `bNext`. */
  lemma RingWraps(points: nat, segments: nat, seg: nat)
    requires seg < segments && 0 < points
    ensures var base := 6 * Slot(points, seg, points - 1);
            var buf := IndexBuffer(points, segments);
            base + 6 <= |buf| &&
            buf[base + 1] == Slot(points, seg, 0) && buf[base + 3] == Slot(points, seg, 0) &&
            buf[base + 4] == Slot(points, (seg + 1) % segments, 0)
  {
    var last := points - 1;
    var q := QuadAt(points, segments, seg, last);
    assert q.b == Slot(points, seg, 0) && q.bNext == Slot(points, (seg + 1) % segments, 0) by {
      assert CyclicNext(last, points) == 0;
      assert CyclicNext(seg, segments) == (seg + 1) % segments;
    }
    var base := 6 * Slot(points, seg, last);
    assert base + 6 <= |IndexBuffer(points, segments)| by {
      EntryOfQuad(points, segments, seg, last, 5);
    }
    assert IndexBuffer(points, segments)[base + 1] == q.b by {
      EntryOfQuad(points, segments, seg, last, 1);
    }
    assert IndexBuffer(points, segments)[base + 3] == q.b by {
      EntryOfQuad(points, segments, seg, last, 3);
    }
    assert IndexBuffer(points, segments)[base + 4] == q.bNext by {
      EntryOfQuad(points, segments, seg, last, 4);
    }
  }

  /** With at least two points per ring and two rings, the four corners of a
      quad are four different vertices. */
  lemma QuadCornersDistinct(points: nat, segments: nat, seg: nat, i: nat)
    requires 2 <= points && 2 <= segments && seg < segments && i < points
    ensures var q := QuadAt(points, segments, seg, i);
            q.a != q.b && q.a != q.aNext && q.a != q.bNext &&
            q.b != q.aNext && q.b != q.bNext && q.aNext != q.bNext
  {
    var nextSeg := CyclicNext(seg, segments);
    var nextI := CyclicNext(i, points);
    CyclicNextMoves(seg, segments);
    CyclicNextMoves(i, points);
    SlotDecode(points, seg, i);
    SlotDecode(points, seg, nextI);
    SlotDecode(points, nextSeg, i);
    SlotDecode(points, nextSeg, nextI);
  }

  /** Triangle n of the buffer (entries 3n, 3n+1, 3n+2) has three different
      corners once rings have two points and the sweep has two rings. */
  lemma NoDegenerateTriangles(points: nat, segments: nat, n: nat)
    requires 2 <= points && 2 <= segments && n < 2 * (points * segments)
    ensures 3 * n + 2 < |IndexBuffer(points, segments)|
    ensures var buf := IndexBuffer(points, segments);
            buf[3 * n] != buf[3 * n + 1] && buf[3 * n + 1] != buf[3 * n + 2] && buf[3 * n] != buf[3 * n + 2]
  {
    var buf := IndexBuffer(points, segments);
    var k := 3 * n;
    assert k + 2 < points * segments * 6 && k % 6 + 2 < 6 && (k + 1) / 6 == k / 6 && (k + 2) / 6 == k / 6;
    EntryDecode(points, segments, k);
    EntryDecode(points, segments, k + 1);
    EntryDecode(points, segments, k + 2);
    QuadCornersDistinct(points, segments, (k / 6) / points, (k / 6) % points);
  }

  /** Fixing the corner position c, the quad is determined by the vertex
      found there: each of the six corner positions maps quads one-to-one
      onto vertices. */
  lemma CornerInjective(points: nat, segments: nat, c: nat, seg: nat, i: nat, seg': nat, i': nat)
    requires c < 6 && seg < segments && i < points && seg' < segments && i' < points
    requires Emit(QuadAt(points, segments, seg, i))[c] == Emit(QuadAt(points, segments, seg', i'))[c]
    ensures seg == seg' && i == i'
  {
    var q, q' := QuadAt(points, segments, seg, i), QuadAt(points, segments, seg', i');
    var ring, ring' := if c in {2, 4, 5} then CyclicNext(seg, segments) else seg,
                       if c in {2, 4, 5} then CyclicNext(seg', segments) else seg';
    var point, point' := if c in {1, 3, 4} then CyclicNext(i, points) else i,
                         if c in {1, 3, 4} then CyclicNext(i', points) else i';
    assert Emit(q)[c] == Slot(points, ring, point);
    assert Emit(q')[c] == Slot(points, ring', point');
    SlotInjective(points, ring, point, ring', point');
    if c in {2, 4, 5} {
      CyclicNextInjective(seg, seg', segments);
    }
    if c in {1, 3, 4} {
      CyclicNextInjective(i, i', points);
    }
  }

  /** The positions of the buffer at corner position c that hold vertex v. */
  function Hits(points: nat, segments: nat, v: int, c: nat): set<nat>
  {
    set k: nat | k < points * segments * 6 && k % 6 == c && IndexBuffer(points, segments)[k] == v
  }

  /** The positions of the buffer that hold vertex v. */
  function Occurrences(points: nat, segments: nat, v: int): set<nat>
  {
    set k: nat | k < points * segments * 6 && IndexBuffer(points, segments)[k] == v
  }

  /** A hit of v at corner position c is corner c of the quad numbered k / 6. */
  lemma HitDecode(points: nat, segments: nat, v: int, c: nat, k: nat)
    requires k in Hits(points, segments, v, c)
    ensures 0 < points && (k / 6) / points < segments && c < 6
    ensures k == 6 * Slot(points, (k / 6) / points, (k / 6) % points) + c
    ensures Emit(QuadAt(points, segments, (k / 6) / points, (k / 6) % points))[c] == v
  {
    EntryDecode(points, segments, k);
  }

  /** A hit of the vertex at corner c of quad (seg, i) at corner position c
      is that corner itself. */
  lemma HitIsOwn(points: nat, segments: nat, c: nat, seg: nat, i: nat, k: nat)
    requires c < 6 && seg < segments && i < points
    requires k in Hits(points, segments, Emit(QuadAt(points, segments, seg, i))[c], c)
    ensures k == 6 * Slot(points, seg, i) + c
  {
    HitDecode(points, segments, Emit(QuadAt(points, segments, seg, i))[c], c, k);
    CornerInjective(points, segments, c, seg, i, (k / 6) / points, (k / 6) % points);
  }

  /** The vertex at corner c of quad (seg, i) occurs at corner position c
      of no other quad. */
  lemma HitsSingleton(points: nat, segments: nat, c: nat, seg: nat, i: nat)
    requires c < 6 && seg < segments && i < points
    ensures Hits(points, segments, Emit(QuadAt(points, segments, seg, i))[c], c) == {6 * Slot(points, seg, i) + c}
  {
    var v := Emit(QuadAt(points, segments, seg, i))[c];
    var k0 := 6 * Slot(points, seg, i) + c;
    EntryOfQuad(points, segments, seg, i, c);
    assert k0 in Hits(points, segments, v, c);
    forall k | k in Hits(points, segments, v, c)
      ensures k == k0
    {
      HitIsOwn(points, segments, c, seg, i, k);
    }
  }

  /** The roles of vertex i of ring j: it is `a` of its own quad, `b` (twice)
      of the quad before it on its ring, `aNext` (twice) of the same point on
      the ring before, and `bNext` of the quad before that one, and at each
      corner position it occurs nowhere else. */
  lemma VertexRoles(points: nat, segments: nat, j: nat, i: nat)
    requires j < segments && i < points
    ensures var v := Slot(points, j, i);
            var pj := CyclicPrev(j, segments);
            var pi := CyclicPrev(i, points);
            Hits(points, segments, v, 0) == {6 * Slot(points, j, i)} &&
            Hits(points, segments, v, 1) == {6 * Slot(points, j, pi) + 1} &&
            Hits(points, segments, v, 3) == {6 * Slot(points, j, pi) + 3} &&
            Hits(points, segments, v, 2) == {6 * Slot(points, pj, i) + 2} &&
            Hits(points, segments, v, 5) == {6 * Slot(points, pj, i) + 5} &&
            Hits(points, segments, v, 4) == {6 * Slot(points, pj, pi) + 4}
  {
    var pj := CyclicPrev(j, segments);
    var pi := CyclicPrev(i, points);
    HitsSingleton(points, segments, 0, j, i);
    HitsSingleton(points, segments, 1, j, pi);
    HitsSingleton(points, segments, 3, j, pi);
    HitsSingleton(points, segments, 2, pj, i);
    HitsSingleton(points, segments, 5, pj, i);
    HitsSingleton(points, segments, 4, pj, pi);
  }

  /** Every position sits at one of the six corner positions. */
  lemma OccurrencesByCorner(points: nat, segments: nat, v: int)
    ensures Occurrences(points, segments, v) ==
      Hits(points, segments, v, 0) + Hits(points, segments, v, 1) + Hits(points, segments, v, 2) +
      Hits(points, segments, v, 3) + Hits(points, segments, v, 4) + Hits(points, segments, v, 5)
  {
  }

  lemma SixDistinct(k0: nat, k1: nat, k2: nat, k3: nat, k4: nat, k5: nat)
    requires k0 % 6 == 0 && k1 % 6 == 1 && k2 % 6 == 2 && k3 % 6 == 3 && k4 % 6 == 4 && k5 % 6 == 5
    ensures |{k0, k1, k2, k3, k4, k5}| == 6
  {
  }

  /** Every vertex of the torus is a corner of exactly six buffer entries. */
  lemma ExactlySixCorners(points: nat, segments: nat, v: nat)
    requires v < points * segments
    ensures |Occurrences(points, segments, v)| == 6
  {
    SlotOnto(points, segments, v);
    var j, i := v / points, v % points;
    VertexRoles(points, segments, j, i);
    OccurrencesByCorner(points, segments, v);
    var pj := CyclicPrev(j, segments);
    var pi := CyclicPrev(i, points);
    var k0, k1, k2 := 6 * Slot(points, j, i), 6 * Slot(points, j, pi) + 1, 6 * Slot(points, pj, i) + 2;
    var k3, k4, k5 := 6 * Slot(points, j, pi) + 3, 6 * Slot(points, pj, pi) + 4, 6 * Slot(points, pj, i) + 5;
    assert Occurrences(points, segments, v) == {k0, k1, k2, k3, k4, k5};
    SixDistinct(k0, k1, k2, k3, k4, k5);
  }

  /** The bound in NoDegenerateTriangles is needed: with one point per ring,
      `b` is `a` again. */
  lemma OnePointRingsDegenerate(segments: nat)
    requires 0 < segments
    ensures 2 <= |IndexBuffer(1, segments)| && IndexBuffer(1, segments)[0] == IndexBuffer(1, segments)[1]
  {
    EntryOfQuad(1, segments, 0, 0, 0);
    EntryOfQuad(1, segments, 0, 0, 1);
  }

  /** ... and with a single ring, `aNext` is `a` again. */
  lemma OneRingDegenerate(points: nat)
    requires 0 < points
    ensures 3 <= |IndexBuffer(points, 1)| && IndexBuffer(points, 1)[0] == IndexBuffer(points, 1)[2]
  {
    EntryOfQuad(points, 1, 0, 0, 0);
    EntryOfQuad(points, 1, 0, 0, 2);
  }
}
