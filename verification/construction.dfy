/** The field constructor: clamp the mine count, allocate free cells, place the
    mines with no cell excluded, and compute the adjacent counts. */
module Construction {
  import opened Cells
  import opened Fields
  import opened Iteration
  import opened Placement
  import opened Adjacency

  /** `sizeX` rows of `sizeY` fresh free cells, the cell at row i, column j carrying
      the coordinates (j + 1, i + 1). */
  function Allocate(sizeX: int, sizeY: int): (grid: seq<seq<Cell>>)
    requires sizeX >= 0 && sizeY >= 0
    ensures |grid| == sizeX
    ensures forall r :: 0 <= r < sizeX ==> |grid[r]| == sizeY
    ensures forall r, c :: 0 <= r < sizeX && 0 <= c < sizeY ==> grid[r][c] == NewCell(c + 1, r + 1, false)
  {
    seq(sizeX, i => seq(sizeY, j => NewCell(j + 1, i + 1, false)))
  }

  /** `MineField(sizeX, sizeY, mines)`, with bits standing for the random draws of
      the mine placement: a field of the given size, the clamped mine count, exactly
      that many mines, every cell hidden and unmarked, and the adjacent counts
      `calculateAdjacent` leaves. */
  method NewField(sizeX: int, sizeY: int, mines: int, bits: seq<bool>) returns (f: Field)
    requires sizeX == sizeY >= 1
    requires |bits| >= sizeX * sizeY
    ensures Valid(f) && f.sizeX == sizeX && f.sizeY == sizeY
    ensures f.minesAtStart == ClampMines(sizeX, sizeY, mines)
    ensures MineCount(f) == f.minesAtStart
    ensures forall a, b :: InRange(f, a, b) ==> !GetCell(f, a, b).isVisible && !GetCell(f, a, b).isMarked
    ensures forall a, b :: InRange(f, a, b) && VisitsStored(sizeX, a, b) ==>
              GetCell(f, a, b).adjacentMines ==
                if GetCell(f, a, b).isMine then -1
                else if InRange(f, a + 1, b + 1) && GetCell(f, a + 1, b + 1).isMine then 1
                else 0
    ensures forall a, b :: InRange(f, a, b) && !VisitsStored(sizeX, a, b) ==> GetCell(f, a, b).adjacentMines == 0
  {
    var blank := Field(sizeX, sizeY, ClampMines(sizeX, sizeY, mines), Allocate(sizeX, sizeY));
    var placed := Renew(blank, 0, 0, bits);
    f := CalculateAdjacent(placed);
    forall a, b | InRange(placed, a, b)
      ensures GetCell(placed, a, b).isMine == GetCell(f, a, b).isMine
    {
    }
    MineCountAgree(placed, f);
  }
}
