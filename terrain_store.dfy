/**
 * The 2D terrain grid store: a flat byte grid of `GridWidth × GridHeight`
 * cells in row-major order, created with its lower half solid, and a
 * `DestroyTerrain` operation that clears an open disc in a fresh copy of the
 * grid and installs the copy as the store's grid.
 */
module TerrainStore {
  import opened Common

  const GridWidth: int := 100
  const GridHeight: int := 50

  /** Where cell `(x, y)` lives in the flat grid. */
  function Index(x: int, y: int, width: int): int
  {
    y * width + x
  }

  /** The contents `CreateInitialTerrain` produces: rows below half the height hold material 1. */
  ghost function InitialGrid(): seq<Byte>
  {
    seq(GridWidth * GridHeight, i => if 2 * (i / GridWidth) < GridHeight then 1 else 0)
  }

  /**
   * Whether `DestroyTerrain` clears cell `(x, y)`: its Euclidean distance to
   * the centre is strictly below the radius. For an integer radius this is
   * `dx² + dy² < r²` when `r > 0`, and never when `r <= 0`.
   */
  predicate WithinRadius(x: int, y: int, centerX: int, centerY: int, radius: int): (inside: bool)
    ensures radius <= 0 ==> !inside
    ensures radius > 0 && x == centerX && y == centerY ==> inside
  {
    radius > 0 && (x - centerX) * (x - centerX) + (y - centerY) * (y - centerY) < radius * radius
  }

  /** The grid `DestroyTerrain` installs, given the grid it copied. */
  ghost function Erase(g: seq<Byte>, width: int, centerX: int, centerY: int, radius: int): (e: seq<Byte>)
    requires width > 0
    ensures |e| == |g|
    ensures forall i :: 0 <= i < |g| ==> e[i] == 0 || e[i] == g[i]
  {
    seq(|g|, i requires 0 <= i < |g| =>
      if WithinRadius(i % width, i / width, centerX, centerY, radius) then 0 else g[i])
  }

  /** Builds the initial terrain: an all-zero grid whose lower half is then filled column by column. */
  method CreateInitialTerrain() returns (grid: array<Byte>)
    ensures grid.Length == GridWidth * GridHeight
    ensures forall x, y :: 0 <= x < GridWidth && 0 <= y < GridHeight ==>
      grid[Index(x, y, GridWidth)] == if 2 * y < GridHeight then 1 else 0
    ensures grid[..] == InitialGrid()
  {
    grid := new Byte[GridWidth * GridHeight](_ => 0);
    var x := 0;
    while x < GridWidth
      invariant 0 <= x <= GridWidth
      invariant forall i :: 0 <= i < grid.Length ==>
        grid[i] == if i % GridWidth < x && 2 * (i / GridWidth) < GridHeight then 1 else 0
    {
      var y := 0;
      while 2 * y < GridHeight
        invariant 0 <= y && 2 * y <= GridHeight
        invariant forall i :: 0 <= i < grid.Length ==>
          grid[i] == if (i % GridWidth < x || (i % GridWidth == x && i / GridWidth < y)) && 2 * (i / GridWidth) < GridHeight then 1 else 0
      {
        DivModOfLinear(y, x, GridWidth);
        grid[Index(x, y, GridWidth)] := 1;
        y := y + 1;
      }
      x := x + 1;
    }
    forall x, y | 0 <= x < GridWidth && 0 <= y < GridHeight
      ensures grid[Index(x, y, GridWidth)] == if 2 * y < GridHeight then 1 else 0
    {
      DivModOfLinear(y, x, GridWidth);
    }
  }

  /** The store: its grid and the grid's dimensions. */
  class TerrainStore {
    var grid: array<Byte>
    var width: int
    var height: int

    ghost predicate Valid()
      reads this
    {
      width == GridWidth && height == GridHeight && grid.Length == width * height
    }

    /** The store's initial state. */
    constructor ()
      ensures Valid()
      ensures grid[..] == InitialGrid()
    {
      var initial := CreateInitialTerrain();
      grid := initial;
      width := GridWidth;
      height := GridHeight;
    }

    /** Clears every cell strictly inside the disc, writing into a copy and installing it. */
    method DestroyTerrain(centerX: int, centerY: int, radius: int)
      requires Valid()
      modifies this
      ensures Valid()
      ensures width == old(width) && height == old(height)
      ensures fresh(grid)
      ensures grid[..] == Erase(old(grid[..]), width, centerX, centerY, radius)
      ensures old(grid)[..] == old(grid[..])
    {
      var current, w, h := grid[..], width, height;
      var newGrid := new Byte[|current|](i requires 0 <= i < |current| => current[i]);
      ghost var target := Erase(current, w, centerX, centerY, radius);
      var y := 0;
      while y < h
        modifies newGrid
        invariant 0 <= y <= h
        invariant forall i :: 0 <= i < newGrid.Length ==>
          newGrid[i] == if i < Index(0, y, w) then target[i] else current[i]
      {
        var x := 0;
        while x < w
          modifies newGrid
          invariant 0 <= x <= w
          invariant forall i :: 0 <= i < newGrid.Length ==>
            newGrid[i] == if i < Index(x, y, w) then target[i] else current[i]
        {
          DivModOfLinear(y, x, w);
          if WithinRadius(x, y, centerX, centerY, radius) {
            newGrid[Index(x, y, w)] := 0;
          }
          x := x + 1;
        }
        y := y + 1;
      }
      grid := newGrid;
    }
  }

  /** Every cell inside the open disc is empty after the erase. */
  lemma EraseClearsDisc(g: seq<Byte>, width: int, centerX: int, centerY: int, radius: int, x: int, y: int)
    requires width > 0 && 0 <= x < width && 0 <= y && Index(x, y, width) < |g|
    requires WithinRadius(x, y, centerX, centerY, radius)
    ensures Erase(g, width, centerX, centerY, radius)[Index(x, y, width)] == 0
  {
    DivModOfLinear(y, x, width);
  }

  /** Every cell outside the open disc keeps its value. */
  lemma EraseKeepsOutside(g: seq<Byte>, width: int, centerX: int, centerY: int, radius: int, x: int, y: int)
    requires width > 0 && 0 <= x < width && 0 <= y && Index(x, y, width) < |g|
    requires !WithinRadius(x, y, centerX, centerY, radius)
    ensures Erase(g, width, centerX, centerY, radius)[Index(x, y, width)] == g[Index(x, y, width)]
  {
    DivModOfLinear(y, x, width);
  }

  /** The disc is open: a cell at distance exactly `radius` is untouched. */
  lemma EraseBoundaryOpen(g: seq<Byte>, width: int, centerX: int, centerY: int, radius: int, x: int, y: int)
    requires width > 0 && 0 <= x < width && 0 <= y && Index(x, y, width) < |g|
    requires (x - centerX) * (x - centerX) + (y - centerY) * (y - centerY) == radius * radius
    ensures Erase(g, width, centerX, centerY, radius)[Index(x, y, width)] == g[Index(x, y, width)]
  {
    EraseKeepsOutside(g, width, centerX, centerY, radius, x, y);
  }

  /** A non-positive radius erases nothing. */
  lemma EraseNonPositiveRadius(g: seq<Byte>, width: int, centerX: int, centerY: int, radius: int)
    requires width > 0 && radius <= 0
    ensures Erase(g, width, centerX, centerY, radius) == g
  {
  }

  /** Erasing the same disc twice is the same as erasing it once. */
  lemma EraseIdempotent(g: seq<Byte>, width: int, centerX: int, centerY: int, radius: int)
    requires width > 0
    ensures Erase(Erase(g, width, centerX, centerY, radius), width, centerX, centerY, radius)
         == Erase(g, width, centerX, centerY, radius)
  {
  }

  /** The initial grid has one cell per grid position, solid exactly in the rows below half the height. */
  lemma InitialCell(x: int, y: int)
    requires 0 <= x < GridWidth && 0 <= y < GridHeight
    ensures |InitialGrid()| == GridWidth * GridHeight
    ensures InitialGrid()[Index(x, y, GridWidth)] == if 2 * y < GridHeight then 1 else 0
  {
    DivModOfLinear(y, x, GridWidth);
  }
}
