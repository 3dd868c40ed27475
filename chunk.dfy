/**
 * The per-chunk sampling and buffer building around the surface extractor:
 * the potential field handed to the extractor, the "no geometry" test on
 * its result, and the flattening of its triples into the vertex and index
 * buffers that the renderer and the collider read back three at a time.
 */
module Chunk {
  import opened Common

  /** z-major linearisation of a voxel inside a cube of edge `chunkSize`. */
  function SampleIndex(chunkSize: int, x: int, y: int, z: int): int
  {
    z * chunkSize * chunkSize + y * chunkSize + x
  }

  /** Whether a sample point lies inside the chunk's cube `[0, chunkSize)³`. */
  predicate InChunk(chunkSize: int, x: real, y: real, z: real)
  {
    0.0 <= x < chunkSize as real && 0.0 <= y < chunkSize as real && 0.0 <= z < chunkSize as real
  }

  /**
   * The potential field: 1 (air) outside the chunk, otherwise one minus the
   * voxel at the floored coordinates. A read past the end of `data` yields
   * `undefined` and so a NaN potential, modelled as `None`.
   */
  function Potential(data: seq<Byte>, chunkSize: int, x: real, y: real, z: real): (p: Option<int>)
    ensures p.Some? ==> -254 <= p.value <= 1
    ensures !InChunk(chunkSize, x, y, z) ==> p == Some(1)
    ensures |data| >= chunkSize * chunkSize * chunkSize ==> p.Some?
  {
    if !InChunk(chunkSize, x, y, z) then Some(1)
    else
      var (i, j, k) := (x.Floor, y.Floor, z.Floor);
      FloorInRange(x, chunkSize);
      FloorInRange(y, chunkSize);
      FloorInRange(z, chunkSize);
      SampleIndexInCube(chunkSize, i, j, k);
      var index := SampleIndex(chunkSize, i, j, k);
      if index < |data| then Some(1 - data[index] as int) else None
  }

  /** A sample coordinate inside `[0, n)` floors to a voxel coordinate inside `[0, n)`. */
  lemma FloorInRange(r: real, n: int)
    requires 0.0 <= r < n as real
    ensures 0 <= r.Floor < n
  {
  }

  /** Every in-range voxel has an index inside the cube's `chunkSize³` cells. */
  lemma SampleIndexInCube(chunkSize: int, x: int, y: int, z: int)
    requires 0 <= x < chunkSize && 0 <= y < chunkSize && 0 <= z < chunkSize
    ensures 0 <= SampleIndex(chunkSize, x, y, z) < chunkSize * chunkSize * chunkSize
  {
    LinearBelow(z, y, chunkSize, chunkSize);
    LinearBelow(z * chunkSize + y, x, chunkSize, chunkSize * chunkSize);
    assert SampleIndex(chunkSize, x, y, z) == (z * chunkSize + y) * chunkSize + x;
    assert chunkSize * chunkSize * chunkSize == (chunkSize * chunkSize) * chunkSize;
  }

  /** Distinct in-range voxels have distinct indices. */
  lemma SampleIndexInjective(chunkSize: int, x1: int, y1: int, z1: int, x2: int, y2: int, z2: int)
    requires 0 <= x1 < chunkSize && 0 <= y1 < chunkSize && 0 <= z1 < chunkSize
    requires 0 <= x2 < chunkSize && 0 <= y2 < chunkSize && 0 <= z2 < chunkSize
    requires SampleIndex(chunkSize, x1, y1, z1) == SampleIndex(chunkSize, x2, y2, z2)
    ensures x1 == x2 && y1 == y2 && z1 == z2
  {
    assert SampleIndex(chunkSize, x1, y1, z1) == (z1 * chunkSize + y1) * chunkSize + x1;
    assert SampleIndex(chunkSize, x2, y2, z2) == (z2 * chunkSize + y2) * chunkSize + x2;
    DivModOfLinear(z1 * chunkSize + y1, x1, chunkSize);
    DivModOfLinear(z2 * chunkSize + y2, x2, chunkSize);
    assert x1 == x2 && z1 * chunkSize + y1 == z2 * chunkSize + y2;
    DivModOfLinear(z1, y1, chunkSize);
    DivModOfLinear(z2, y2, chunkSize);
  }

  /**
   * At an in-range lattice point of a full chunk the potential is one minus
   * the stored voxel: an empty voxel gives 1, material 1 gives 0.
   */
  lemma PotentialAtVoxel(data: seq<Byte>, chunkSize: int, x: int, y: int, z: int)
    requires 0 <= x < chunkSize && 0 <= y < chunkSize && 0 <= z < chunkSize
    requires |data| >= chunkSize * chunkSize * chunkSize
    ensures 0 <= SampleIndex(chunkSize, x, y, z) < |data|
    ensures Potential(data, chunkSize, x as real, y as real, z as real)
         == Some(1 - data[SampleIndex(chunkSize, x, y, z)] as int)
    ensures Potential(data, chunkSize, x as real, y as real, z as real) == Some(1)
         <==> data[SampleIndex(chunkSize, x, y, z)] == 0
    ensures Potential(data, chunkSize, x as real, y as real, z as real) == Some(0)
         <==> data[SampleIndex(chunkSize, x, y, z)] == 1
  {
    SampleIndexInCube(chunkSize, x, y, z);
  }

  /** The chunk border is air: outside samples read like an empty voxel inside. */
  lemma BorderIsAir(data: seq<Byte>, chunkSize: int, x: real, y: real, z: real, ex: int, ey: int, ez: int)
    requires !InChunk(chunkSize, x, y, z)
    requires 0 <= ex < chunkSize && 0 <= ey < chunkSize && 0 <= ez < chunkSize
    requires |data| >= chunkSize * chunkSize * chunkSize
    requires 0 <= SampleIndex(chunkSize, ex, ey, ez) < |data| && data[SampleIndex(chunkSize, ex, ey, ez)] == 0
    ensures Potential(data, chunkSize, x, y, z) == Potential(data, chunkSize, ex as real, ey as real, ez as real)
  {
    PotentialAtVoxel(data, chunkSize, ex, ey, ez);
  }

  /** What the surface extractor returns: vertex positions and triangles as triples. */
  datatype SurfaceNetsResult<P> = SurfaceNetsResult(positions: seq<(P, P, P)>, cells: seq<(int, int, int)>)

  /** The buffers handed to the renderer and the collider. */
  datatype Geometry<P> = Geometry(vertices: seq<P>, indices: seq<int>)

  /** Component `k` of a triple. */
  function Component<T>(t: (T, T, T), k: int): T
    requires 0 <= k < 3
  {
    if k == 0 then t.0 else if k == 1 then t.1 else t.2
  }

  /** One level of flattening: the triples laid end to end. */
  function Flatten<T>(ts: seq<(T, T, T)>): (flat: seq<T>)
    ensures |flat| == 3 * |ts|
    ensures forall i :: 0 <= i < |ts| ==>
      flat[3 * i] == ts[i].0 && flat[3 * i + 1] == ts[i].1 && flat[3 * i + 2] == ts[i].2
  {
    if ts == [] then []
    else
      var rest := Flatten(ts[1..]);
      assert forall i :: 1 <= i < |ts| ==> ts[1..][i - 1] == ts[i];
      [ts[0].0, ts[0].1, ts[0].2] + rest
  }

  /** Reading a flat buffer with item size 3, as the renderer reads the position attribute. */
  function Group<T>(flat: seq<T>): (ts: seq<(T, T, T)>)
    requires |flat| % 3 == 0
    ensures |ts| == |flat| / 3
    ensures forall i :: 0 <= i < |ts| ==> ts[i] == (flat[3 * i], flat[3 * i + 1], flat[3 * i + 2])
  {
    if |flat| == 0 then []
    else
      var tail := flat[3..];
      var rest := Group(tail);
      assert forall j :: 0 <= j < |rest| ==> rest[j] == (flat[3 * j + 3], flat[3 * j + 4], flat[3 * j + 5]);
      [(flat[0], flat[1], flat[2])] + rest
  }

  /** Element `j` of the flattened buffer is component `j % 3` of triple `j / 3`. */
  lemma {:induction false} FlattenAt<T>(ts: seq<(T, T, T)>, j: int)
    requires 0 <= j < 3 * |ts|
    ensures 0 <= j / 3 < |ts|
    ensures Flatten(ts)[j] == Component(ts[j / 3], j % 3)
  {
    var i, k := j / 3, j % 3;
    DivModOfLinear(i, k, 3);
    var flat, t := Flatten(ts), ts[i];
    assert flat[3 * i] == t.0 && flat[3 * i + 1] == t.1 && flat[3 * i + 2] == t.2;
    if k == 0 {
      assert flat[3 * i + k] == t.0;
    } else if k == 1 {
      assert flat[3 * i + k] == t.1;
    } else {
      assert flat[3 * i + k] == t.2;
    }
  }

  /** Reading the flattened buffer back three at a time recovers the triples. */
  lemma {:induction false} GroupFlatten<T>(ts: seq<(T, T, T)>)
    ensures |Flatten(ts)| % 3 == 0
    ensures Group(Flatten(ts)) == ts
  {
    if ts != [] {
      var flat := Flatten(ts);
      assert flat[3..] == Flatten(ts[1..]);
      GroupFlatten(ts[1..]);
    }
  }

  /**
   * The geometry built from an extractor result: none when it has no
   * positions or no cells, otherwise the flattened positions and cells.
   */
  function BuildGeometry<P>(result: SurfaceNetsResult<P>): (g: Option<Geometry<P>>)
    ensures g.None? <==> |result.positions| == 0 || |result.cells| == 0
    ensures g.Some? ==> |g.value.vertices| > 0 && |g.value.indices| > 0
    ensures g.Some? ==> |g.value.vertices| % 3 == 0 && Group(g.value.vertices) == result.positions
    ensures g.Some? ==> |g.value.indices| % 3 == 0 && Group(g.value.indices) == result.cells
  {
    if |result.positions| == 0 || |result.cells| == 0 then None
    else
      GroupFlatten(result.positions);
      GroupFlatten(result.cells);
      Some(Geometry(Flatten(result.positions), Flatten(result.cells)))
  }
}
