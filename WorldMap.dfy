/**
 * The static tile grid of the world and the point-to-tile lookup
 * (`WorldMap` in server/worldmap.js). A tile value of 1 is open floor and 0
 * is wall; a position whose cell is outside the grid reads as `null`
 * (out-of-range row) or `undefined` (out-of-range column), both modelled
 * as `None`.
 */
module WorldMap {
  import opened Geometry
  import opened Wrappers

  /** The grid: 15 rows of 14 columns (the grid is not square). */
  const TileMap: seq<seq<int>> := [
    [0, 0, 0, 0, 0, 0, 0, 0, 0, 0, 0, 0, 0, 0],
    [0, 1, 0, 1, 1, 1, 1, 1, 1, 1, 1, 1, 1, 0],
    [0, 1, 0, 1, 1, 1, 1, 1, 1, 1, 1, 1, 1, 0],
    [0, 1, 0, 1, 1, 0, 1, 1, 1, 1, 1, 1, 1, 0],
    [0, 1, 1, 1, 1, 0, 1, 1, 1, 1, 1, 1, 1, 0],
    [0, 0, 0, 0, 0, 0, 1, 1, 1, 1, 1, 1, 1, 0],
    [0, 0, 1, 1, 1, 1, 1, 1, 1, 1, 1, 1, 1, 0],
    [0, 0, 0, 0, 1, 1, 1, 1, 1, 1, 1, 1, 1, 0],
    [0, 0, 0, 0, 1, 1, 1, 1, 1, 1, 1, 1, 1, 0],
    [0, 1, 1, 1, 1, 1, 1, 1, 1, 1, 1, 1, 1, 0],
    [0, 1, 1, 1, 1, 1, 1, 1, 1, 1, 1, 1, 1, 0],
    [0, 1, 1, 1, 1, 1, 1, 1, 1, 1, 1, 1, 1, 0],
    [0, 1, 1, 1, 1, 1, 1, 1, 1, 1, 1, 1, 1, 0],
    [0, 1, 1, 1, 1, 1, 1, 1, 1, 1, 1, 1, 1, 0],
    [0, 0, 0, 0, 0, 0, 0, 0, 0, 0, 0, 0, 0, 0]
  ]

  const Open: int := 1

  /** `Math.floor(tileMap.length / 2)`: the grid index of world coordinate 0. */
  const CenterIndex: int := |TileMap| / 2

  /** The grid column of a world position: `centerIndex + floor(x + 0.5)`. */
  function Column(p: Vec): int { CenterIndex + (p.x + 0.5).Floor }

  /** The grid row of a world position: `centerIndex - floor(y + 0.5)` (y grows upwards). */
  function Row(p: Vec): int { CenterIndex - (p.y + 0.5).Floor }

  /** The cell a position rounds to, written as a world position. */
  function CellCentre(p: Vec): Vec {
    Vec((p.x + 0.5).Floor as real, (p.y + 0.5).Floor as real)
  }

  /** Reading `tileMap[row][column]`, with JavaScript's missing-index results as `None`. */
  function Tile(row: int, column: int): Option<int> {
    if 0 <= row < |TileMap| && 0 <= column < |TileMap[row]| then Some(TileMap[row][column]) else None
  }

  function GetTileAtPos(p: Vec): (t: Option<int>)
    ensures t.Some? <==> 0 <= Row(p) < 15 && 0 <= Column(p) < 14
    ensures !(0 <= Row(p) < 15) ==> t == None
    ensures t.Some? ==> t.value == 0 || t.value == 1
  {
    GridShape();
    Tile(Row(p), Column(p))
  }

  predicate IsOpen(t: Option<int>) { t == Some(Open) }

  /** The grid has 15 rows of 14 columns, every entry is 0 or 1, and the centre index is 7. */
  lemma GridShape()
    ensures |TileMap| == 15 && CenterIndex == 7
    ensures forall r :: 0 <= r < 15 ==> |TileMap[r]| == 14
    ensures forall r, c :: 0 <= r < 15 && 0 <= c < 14 ==> TileMap[r][c] == 0 || TileMap[r][c] == 1
  {
  }

  /** Every cell on the border of the grid is wall, so the open floor is enclosed. */
  lemma BorderIsWall(r: int, c: int)
    requires 0 <= r < 15 && 0 <= c < 14
    requires r == 0 || r == 14 || c == 0 || c == 13
    ensures Tile(r, c) == Some(0)
  {
    GridShape();
  }

  /** The lookup depends only on the rounded cell: a position and its cell centre read the same tile. */
  lemma {:induction false} TileDependsOnlyOnCell(p: Vec)
    ensures Row(CellCentre(p)) == Row(p) && Column(CellCentre(p)) == Column(p)
    ensures GetTileAtPos(CellCentre(p)) == GetTileAtPos(p)
  {
  }

  /** Two positions that round to the same cell read the same tile. */
  lemma SameCellSameTile(p: Vec, q: Vec)
    requires CellCentre(p) == CellCentre(q)
    ensures GetTileAtPos(p) == GetTileAtPos(q)
  {
    TileDependsOnlyOnCell(p);
    TileDependsOnlyOnCell(q);
  }

  /** The player spawn point (2, -2) lies on open floor. */
  lemma SpawnIsOpen()
    ensures Row(Vec(2.0, -2.0)) == 9 && Column(Vec(2.0, -2.0)) == 9
    ensures IsOpen(GetTileAtPos(Vec(2.0, -2.0)))
  {
  }

  /** An open tile is strictly inside the border. */
  lemma OpenIsInterior(p: Vec)
    requires IsOpen(GetTileAtPos(p))
    ensures 1 <= Row(p) <= 13 && 1 <= Column(p) <= 12
  {
    if Row(p) == 0 || Row(p) == 14 || Column(p) == 0 || Column(p) == 13 {
      BorderIsWall(Row(p), Column(p));
    }
  }
}
