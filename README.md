# Torus mesh builder — a Dafny model

This project models the integer bookkeeping of `LóngBuilder.Start`, the
torus-shaped variant of the dragon-body mesh builder. `Start` sweeps a ring of
`points` vertices around a circular path of `segments` positions. It fills two
buffers:

* a vertex buffer of `points * segments` slots, where vertex `i` of ring `j`
  is stored at slot `j * points + i`;
* a triangle index buffer of `segments * points * 6` entries, filled through a
  running cursor `t`. Each quad `(seg, i)` emits the triangles
  `(a, b, aNext)` and `(b, bNext, aNext)`. Here `b` uses ring point
  `(i + 1) % points`, and `aNext`/`bNext` use ring `(seg + 1) % segments`. So
  each ring closes on itself and the last ring stitches back to ring 0.

What is modelled:

* The vertex loop is the method `VertexLayout.FillVertices` over `array<V>`.
  The floating-point position of a vertex is a caller-supplied function
  `place(ring, point)`.
* The triangle loop is the method `TorusBuilder.FillTriangles` over
  `array<int>`. It has the same nested loops, the same `%` wrap-around and the
  same six writes through the cursor.
* Both methods are proved against specification functions: `Layout` for the
  vertex buffer and `IndexBuffer` for the triangle buffer. The properties the
  mesh relies on are lemmas about those functions: bounds, the fixed six-entry
  pattern, wrap-around, non-degenerate triangles and six corners per vertex.
* `TorusBuilder.Start` allocates both buffers. It covers the integer edge
  cases of the settings as well.

Module layout:

* `ModularArith` (modular_arith.dfy): uniqueness of Euclidean division and
  cyclic successor/predecessor.
* `VertexLayout` (vertex_layout.dfy): the slot layout and the vertex loop.
* `TriangleBuffer` (triangle_buffer.dfy): the index buffer and its properties.
* `TorusBuilder` (torus_builder.dfy): the triangle loop and the start-up step.

Later variants of the builder differ from this file in two ways. They leave
the sweep open, with no quad between the last ring and ring 0. They also wind
each quad as `(a, aNext, b)`, `(b, aNext, bNext)`. This model follows the
torus file as written: the sweep wraps, and the winding is `(a, b, aNext)`,
`(b, bNext, aNext)`.

## Model

| member | source | states |
|---|---|---|
| `ModularArith.CyclicNext` | Assets/Scripts/DragonBuilder.cs:66 | `(x + 1) % n` stays below n and is `x + 1`, except that the last index wraps to 0 |
| `VertexLayout.SlotDecode` | Assets/Scripts/DragonBuilder.cs:56 | slot `j * points + i` decodes back to ring `j` (quotient) and point `i` (remainder) |
| `VertexLayout.SlotInjective` | Assets/Scripts/DragonBuilder.cs:56 | distinct (ring, point) pairs are stored in distinct slots |
| `VertexLayout.SlotInRange` | Assets/Scripts/DragonBuilder.cs:23-56 | every slot written by the vertex loop is below the buffer length `points * segments` |
| `VertexLayout.SlotOnto` | Assets/Scripts/DragonBuilder.cs:23-56 | every slot below `points * segments` is the slot of some ring `j < segments` and point `i < points` |
| `VertexLayout.Layout` | Assets/Scripts/DragonBuilder.cs:23 | the vertex buffer has `points * segments` slots |
| `VertexLayout.LayoutAtSlot` | Assets/Scripts/DragonBuilder.cs:51-58 | the slot of (j, i) is inside the buffer and holds the position computed for (j, i) |
| `VertexLayout.FillVertices` | Assets/Scripts/DragonBuilder.cs:28-60 | after the loop the buffer equals `Layout`; slots are written in the order 0, 1, 2, ..., so each slot is written exactly once |
| `TriangleBuffer.IndexBuffer` | Assets/Scripts/DragonBuilder.cs:26 | the triangle buffer has `segments * points * 6` entries |
| `TriangleBuffer.EntryOfQuad` | Assets/Scripts/DragonBuilder.cs:63-83 | quad (seg, i) owns exactly the entries `6 * (seg * points + i) + c` for `c < 6`, and these lie inside the buffer |
| `TriangleBuffer.EntryDecode` | Assets/Scripts/DragonBuilder.cs:63-83 | conversely, every entry k of the buffer is corner `k % 6` of quad `k / 6`, and that quad exists: its ring `(k / 6) / points` is below `segments` |
| `TriangleBuffer.QuadEntries` | Assets/Scripts/DragonBuilder.cs:75-81 | the six consecutive entries from `6 * (seg * points + i)` are the two triangles of quad (seg, i) |
| `TriangleBuffer.QuadFormula` | Assets/Scripts/DragonBuilder.cs:66-73 | the corners of quad (seg, i) are `seg * points + i`, `seg * points + (i + 1) % points` and the same on ring `(seg + 1) % segments` |
| `TriangleBuffer.QuadPattern` | Assets/Scripts/DragonBuilder.cs:65-81 | entries `6 * (seg * points + i)` to `+5` are `a, b, aNext, b, bNext, aNext`, with the four corners computed as the loop computes them |
| `TriangleBuffer.Strip` | Assets/Scripts/DragonBuilder.cs:68-82 | the entries the inner loop emits for the first n quads of a ring number `6 * n` |
| `TriangleBuffer.Sweep` | Assets/Scripts/DragonBuilder.cs:65-83 | the entries the outer loop emits for the first m rings number `6 * (m * points)` |
| `TriangleBuffer.StripAt` | Assets/Scripts/DragonBuilder.cs:68-82 | in the emitted run of a ring, entry `6 * i + c` is corner c of quad i |
| `TriangleBuffer.SweepAt` | Assets/Scripts/DragonBuilder.cs:65-83 | in the emitted run of the first m rings, entry `6 * (seg * points + i) + c` is corner c of quad (seg, i) |
| `TriangleBuffer.QuadInSweep` | Assets/Scripts/DragonBuilder.cs:70-81 | when the cursor stands at `6 * (seg * points) + 6 * i`, the next six entries of the emitted run are `a, b, aNext, b, bNext, aNext` with the corners as the loop computes them |
| `TriangleBuffer.SweepIsIndexBuffer` | Assets/Scripts/DragonBuilder.cs:63-83 | emitting quad after quad in loop order yields exactly the buffer `IndexBuffer` describes entry by entry |
| `TriangleBuffer.QuadInRange` | Assets/Scripts/DragonBuilder.cs:70-73 | the four corners of every quad are below `points * segments` |
| `TriangleBuffer.IndexBufferInRange` | Assets/Scripts/DragonBuilder.cs:63-83 | every entry of the triangle buffer is a valid index into the vertex buffer of `points * segments` slots |
| `TriangleBuffer.SweepWraps` | Assets/Scripts/DragonBuilder.cs:66-73 | the quads of the last ring take ring 0 as their next ring: `aNext` is `i` and `bNext` is `(i + 1) % points` |
| `TriangleBuffer.RingWraps` | Assets/Scripts/DragonBuilder.cs:68-73 | the quad at the last ring point takes point 0 of its own ring as `b` (entries 1 and 3) and point 0 of ring `(seg + 1) % segments` as `bNext` |
| `TriangleBuffer.QuadCornersDistinct` | Assets/Scripts/DragonBuilder.cs:70-73 | with `points >= 2` and `segments >= 2` the four corners of a quad are pairwise distinct |
| `TriangleBuffer.NoDegenerateTriangles` | Assets/Scripts/DragonBuilder.cs:70-81 | with `points >= 2` and `segments >= 2` each of the `2 * points * segments` triangles has three pairwise distinct corners |
| `TriangleBuffer.OnePointRingsDegenerate` | Assets/Scripts/DragonBuilder.cs:71 | with one point per ring the first triangle repeats a corner (`b == a`), so the bound `points >= 2` is needed |
| `TriangleBuffer.OneRingDegenerate` | Assets/Scripts/DragonBuilder.cs:72 | with a single ring the first triangle repeats a corner (`aNext == a`), so the bound `segments >= 2` is needed |
| `TriangleBuffer.CornerInjective` | Assets/Scripts/DragonBuilder.cs:70-81 | for each of the six corner positions, different quads put different vertices there |
| `TriangleBuffer.HitDecode` | Assets/Scripts/DragonBuilder.cs:70-81 | an entry at corner position c holding vertex v is corner c of an existing quad, and that corner is v |
| `TriangleBuffer.HitIsOwn` | Assets/Scripts/DragonBuilder.cs:70-81 | the only entry at corner position c holding corner c of quad (seg, i) is the one that quad wrote |
| `TriangleBuffer.HitsSingleton` | Assets/Scripts/DragonBuilder.cs:70-81 | the vertex at corner position c of a quad appears at corner position c of no other quad |
| `TriangleBuffer.VertexRoles` | Assets/Scripts/DragonBuilder.cs:70-81 | vertex (j, i) is `a` once (its own quad), `b` twice (quad `i-1` of ring j), `aNext` twice (quad `i` of ring `j-1`) and `bNext` once (quad `i-1` of ring `j-1`), indices taken cyclically |
| `TriangleBuffer.ExactlySixCorners` | Assets/Scripts/DragonBuilder.cs:70-81 | every vertex index below `points * segments` occurs in exactly six entries of the buffer |
| `TorusBuilder.FillTriangles` | Assets/Scripts/DragonBuilder.cs:63-83 | the cursor ends exactly at `segments * points * 6`, with no overrun and no unfilled tail, and the array then equals `IndexBuffer` |
| `TorusBuilder.Start` | Assets/Scripts/DragonBuilder.cs:18-88 | a negative product `points * segments` fails the allocation; otherwise the buffers have lengths `points * segments` and `segments * points * 6`; with non-negative settings they hold `Layout` and `IndexBuffer`; with a negative setting they keep their zero initial contents |

## Left out

- Vertex positions: the cosine/sine arithmetic, the `center`, `tangent`, `normal` and `binormal` vectors and the radii `r`, `R` (lines 31-58) are floating point. They are replaced by the parameter `place(ring, point)`, so only where a position is stored is verified, not its value.
- `Vector3.Cross` and `Vector3.forward` (lines 48-49) are engine vector maths. They are covered by `place` as well.
- The `Mesh` and `MeshFilter` objects, assigning `mesh.vertices` and `mesh.triangles`, and `RecalculateNormals` (lines 20-21, 85-87) are engine rendering calls. `Start` returns the two buffers instead.
- The component life cycle (`Start` as an engine callback, the empty `Update`, lines 17-18, 90-94) is left out. The component's `points` and `segments` fields become parameters of `Start`.
- Start: requires `points`, `segments` and `segments * points * 6` to fit in 32 bits. The runtime's unchecked 32-bit wrap-around of larger products is not modelled.
- FillVertices: the order of writes is stated through a ghost result. This is a record of the loop, not an observable output of the source.
