/**
 * Rendering the terrain grid: every non-zero cell, in index order, becomes a
 * unit voxel whose key is its `(x, y)` cell and whose collider and visual box
 * are both placed at the cell's position with the grid centred on the origin.
 */
module Terrain {
  import opened Common
  import TerrainStore

  /** A point in the scene. */
  datatype Position = Position(x: real, y: real, z: real)

  /** One rendered voxel: its key `voxel-x-y`, its collider's and its box's positions. */
  datatype Voxel = Voxel(x: int, y: int, collider: Position, box: Position)

  /** The cell `(index % width, floor(index / width))` that a flat index names. */
  function Decode(index: int, width: int): (cell: (int, int))
    requires width > 0 && index >= 0
    ensures 0 <= cell.0 < width && 0 <= cell.1
    ensures TerrainStore.Index(cell.0, cell.1, width) == index
  {
    (index % width, index / width)
  }

  /** The scene position of cell `(x, y)` when the grid is centred on the origin. */
  function Centred(x: int, y: int, width: int, height: int): Position
  {
    Position(x as real - width as real / 2.0, y as real - height as real / 2.0, 0.0)
  }

  /** What the map callback yields for one cell: nothing for an empty cell, else its voxel. */
  function CellVoxel(cellValue: Byte, index: int, width: int, height: int): (v: Option<Voxel>)
    requires width > 0 && index >= 0
    ensures v.None? <==> cellValue == 0
    ensures v.Some? ==> (v.value.x, v.value.y) == Decode(index, width)
  {
    if cellValue == 0 then None
    else
      var (x, y) := Decode(index, width);
      Some(Voxel(x, y, Centred(x, y, width, height), Centred(x, y, width, height)))
  }

  /** The flat index a rendered voxel came from. */
  function KeyIndex(v: Voxel, width: int): int
  {
    TerrainStore.Index(v.x, v.y, width)
  }

  /** The voxels rendered for the cells from `from` on, null children dropped. */
  function VoxelsFrom(grid: seq<Byte>, from: nat, width: int, height: int): seq<Voxel>
    requires width > 0
    decreases |grid| - from
  {
    if from >= |grid| then []
    else
      match CellVoxel(grid[from], from, width, height)
      case None => VoxelsFrom(grid, from + 1, width, height)
      case Some(v) => [v] + VoxelsFrom(grid, from + 1, width, height)
  }

  /** Decoding inverts the store's layout on every in-row cell. */
  lemma DecodeIndex(x: int, y: int, width: int)
    requires width > 0 && 0 <= x < width && 0 <= y
    ensures TerrainStore.Index(x, y, width) >= 0
    ensures Decode(TerrainStore.Index(x, y, width), width) == (x, y)
  {
    DivModOfLinear(y, x, width);
  }

  /** Distinct indices decode to distinct cells, so voxel keys are unique. */
  lemma DecodeInjective(i: int, j: int, width: int)
    requires width > 0 && i >= 0 && j >= 0 && i != j
    ensures Decode(i, width) != Decode(j, width)
  {
  }

  /** An index inside a `width × height` grid decodes to a row below `height`. */
  lemma DecodeInGrid(index: int, width: int, height: int)
    requires width > 0 && 0 <= index < width * height
    ensures Decode(index, width).1 < height
  {
    var (x, y) := Decode(index, width);
    if y >= height {
      LinearBelow(height, 0, width, y + 1);
      assert false;
    }
  }

  /** Every rendered voxel comes from a non-zero cell at or after `from`, and is that cell's voxel. */
  lemma {:induction false} VoxelsFromSound(grid: seq<Byte>, from: nat, width: int, height: int)
    requires width > 0
    ensures forall v :: v in VoxelsFrom(grid, from, width, height) ==>
      from <= KeyIndex(v, width) < |grid| && grid[KeyIndex(v, width)] != 0 &&
      CellVoxel(grid[KeyIndex(v, width)], KeyIndex(v, width), width, height) == Some(v)
    decreases |grid| - from
  {
    if from < |grid| {
      VoxelsFromSound(grid, from + 1, width, height);
      var c := CellVoxel(grid[from], from, width, height);
      if c.Some? {
        assert KeyIndex(c.value, width) == from;
      }
    }
  }

  /** Every non-zero cell at or after `from` is rendered. */
  lemma {:induction false} VoxelsFromComplete(grid: seq<Byte>, from: nat, width: int, height: int)
    requires width > 0
    ensures forall i :: from <= i < |grid| && grid[i] != 0 ==>
      CellVoxel(grid[i], i, width, height).value in VoxelsFrom(grid, from, width, height)
    decreases |grid| - from
  {
    if from < |grid| {
      VoxelsFromComplete(grid, from + 1, width, height);
    }
  }

  /** Rendered voxels appear in strictly increasing index order. */
  lemma {:induction false} VoxelsFromOrdered(grid: seq<Byte>, from: nat, width: int, height: int)
    requires width > 0
    ensures forall j, k :: 0 <= j < k < |VoxelsFrom(grid, from, width, height)| ==>
      KeyIndex(VoxelsFrom(grid, from, width, height)[j], width) < KeyIndex(VoxelsFrom(grid, from, width, height)[k], width)
    decreases |grid| - from
  {
    if from < |grid| {
      VoxelsFromOrdered(grid, from + 1, width, height);
      VoxelsFromSound(grid, from + 1, width, height);
      var rest := VoxelsFrom(grid, from + 1, width, height);
      var c := CellVoxel(grid[from], from, width, height);
      if c.Some? {
        var vs := [c.value] + rest;
        forall j, k | 0 <= j < k < |vs|
          ensures KeyIndex(vs[j], width) < KeyIndex(vs[k], width)
        {
          assert vs[k] == rest[k - 1] && vs[k] in rest;
          if j > 0 {
            assert vs[j] == rest[j - 1];
          }
        }
      }
    }
  }

  /**
   * The voxels rendered for a whole grid: exactly one per non-zero cell, each
   * the decoding of its cell, in increasing index order.
   */
  function Voxels(grid: seq<Byte>, width: int, height: int): (vs: seq<Voxel>)
    requires width > 0
    ensures forall v :: v in vs ==>
      0 <= KeyIndex(v, width) < |grid| && grid[KeyIndex(v, width)] != 0 &&
      CellVoxel(grid[KeyIndex(v, width)], KeyIndex(v, width), width, height) == Some(v)
    ensures forall i :: 0 <= i < |grid| && grid[i] != 0 ==>
      CellVoxel(grid[i], i, width, height).value in vs
    ensures forall j, k :: 0 <= j < k < |vs| ==> KeyIndex(vs[j], width) < KeyIndex(vs[k], width)
  {
    VoxelsFromSound(grid, 0, width, height);
    VoxelsFromComplete(grid, 0, width, height);
    VoxelsFromOrdered(grid, 0, width, height);
    VoxelsFrom(grid, 0, width, height)
  }

  /**
   * A rendered voxel of a `width × height` grid sits at its cell, shifted so
   * the grid is centred on the origin, with collider and box in the same place.
   */
  lemma VoxelPlacement(grid: seq<Byte>, width: int, height: int, v: Voxel)
    requires width > 0 && |grid| <= width * height
    requires v in Voxels(grid, width, height)
    ensures 0 <= v.x < width && 0 <= v.y < height
    ensures v.collider == v.box
    ensures v.collider.x + width as real / 2.0 == v.x as real
    ensures v.collider.y + height as real / 2.0 == v.y as real
    ensures v.collider.z == 0.0
  {
    var i := KeyIndex(v, width);
    DecodeInGrid(i, width, height);
  }

  /** After `DestroyTerrain`, no rendered voxel lies inside the erased disc. */
  lemma NoVoxelInsideCrater(g: seq<Byte>, width: int, height: int, centerX: int, centerY: int, radius: int, v: Voxel)
    requires width > 0
    requires v in Voxels(TerrainStore.Erase(g, width, centerX, centerY, radius), width, height)
    ensures !TerrainStore.WithinRadius(v.x, v.y, centerX, centerY, radius)
  {
    var e := TerrainStore.Erase(g, width, centerX, centerY, radius);
    var i := KeyIndex(v, width);
    assert e[i] != 0;
    assert Decode(i, width) == (v.x, v.y);
  }

  /** The initial terrain renders exactly the cells of the lower half of the grid. */
  lemma InitialVoxels(x: int, y: int)
    ensures (exists v :: v in Voxels(TerrainStore.InitialGrid(), TerrainStore.GridWidth, TerrainStore.GridHeight)
                         && v.x == x && v.y == y)
        <==> 0 <= x < TerrainStore.GridWidth && 0 <= y && 2 * y < TerrainStore.GridHeight
  {
    var (w, h) := (TerrainStore.GridWidth, TerrainStore.GridHeight);
    var grid := TerrainStore.InitialGrid();
    var vs := Voxels(grid, w, h);
    if 0 <= x < w && 0 <= y && 2 * y < h {
      var i := TerrainStore.Index(x, y, w);
      TerrainStore.InitialCell(x, y);
      DecodeIndex(x, y, w);
      var v := CellVoxel(grid[i], i, w, h).value;
      assert v in vs && v.x == x && v.y == y;
    }
    if v :| v in vs && v.x == x && v.y == y {
      var i := KeyIndex(v, w);
      DecodeInGrid(i, w, h);
      TerrainStore.InitialCell(x, y);
    }
  }
}
