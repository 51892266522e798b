/** The playfield as a value: its size, the clamped mine count, and the grid of cells,
    stored row by row and read as `grid[y - 1][x - 1]`. */
module Fields {
  import opened Cells

  datatype Field = Field(sizeX: int, sizeY: int, minesAtStart: int, grid: seq<seq<Cell>>)

  /** The number of cells, `sizeX * sizeY`. */
  function Area(f: Field): int
  {
    f.sizeX * f.sizeY
  }

  /** The positions `getCell` answers with a stored cell. */
  predicate InRange(f: Field, x: int, y: int)
  {
    1 <= x <= f.sizeX && 1 <= y <= f.sizeY
  }

  /** What every field keeps: a square grid (the grid is allocated with `sizeX`
      rows of `sizeY` cells but indexed row-first, so only a square one is read
      inside its bounds), a mine count the constructor clamped into range, and each
      stored cell carrying the coordinates it is stored under. */
  ghost predicate Valid(f: Field)
  {
    && f.sizeX == f.sizeY >= 1
    && 0 <= f.minesAtStart <= Area(f)
    && |f.grid| == f.sizeX
    && (forall r :: 0 <= r < |f.grid| ==> |f.grid[r]| == f.sizeY)
    && (forall r, c :: 0 <= r < |f.grid| && 0 <= c < |f.grid[r]| ==>
          f.grid[r][c].x == c + 1 && f.grid[r][c].y == r + 1)
  }

  /** Two fields of the same size and mine count. */
  predicate SameShape(f: Field, g: Field)
  {
    f.sizeX == g.sizeX && f.sizeY == g.sizeY && f.minesAtStart == g.minesAtStart
  }

  /** `getCell`: the stored cell in range, a fresh free hidden cell outside. */
  function GetCell(f: Field, x: int, y: int): (c: Cell)
    requires Valid(f)
    ensures c.x == x && c.y == y
    ensures InRange(f, x, y) ==> c == f.grid[y - 1][x - 1]
    ensures !InRange(f, x, y) ==> !c.isMine && !c.isVisible && !c.isMarked && c.adjacentMines == 0
  {
    if InRange(f, x, y) then f.grid[y - 1][x - 1] else NewCell(x, y, false)
  }

  /** `setCell`: replaces the cell stored under the new cell's own coordinates. */
  function SetCell(f: Field, c: Cell): (g: Field)
    requires Valid(f)
    requires InRange(f, c.x, c.y)
    ensures Valid(g) && SameShape(f, g)
    ensures GetCell(g, c.x, c.y) == c
    ensures forall a, b :: (a, b) != (c.x, c.y) ==> GetCell(g, a, b) == GetCell(f, a, b)
  {
    f.(grid := f.grid[c.y - 1 := f.grid[c.y - 1][c.x - 1 := c]])
  }

  /** Two valid fields of the same shape that hand out the same cells are equal. */
  lemma FieldsEqual(f: Field, g: Field)
    requires Valid(f) && Valid(g) && SameShape(f, g)
    requires forall a, b :: InRange(f, a, b) ==> GetCell(f, a, b) == GetCell(g, a, b)
    ensures f == g
  {
    forall r | 0 <= r < |f.grid|
      ensures f.grid[r] == g.grid[r]
    {
      forall c | 0 <= c < |f.grid[r]|
        ensures f.grid[r][c] == g.grid[r][c]
      {
        assert GetCell(f, c + 1, r + 1) == GetCell(g, c + 1, r + 1);
      }
    }
  }

  /** Mines in column `x` among rows 1..k, not counting the cell (ex, ey). */
  function ColumnMines(f: Field, x: int, k: int, ex: int, ey: int): nat
    requires Valid(f) && 0 <= k <= f.sizeY
    decreases k
  {
    if k == 0 then 0
    else ColumnMines(f, x, k - 1, ex, ey) + (if (x, k) != (ex, ey) && GetCell(f, x, k).isMine then 1 else 0)
  }

  /** Mines in columns 1..m, column by column, not counting the cell (ex, ey). */
  function MinesBefore(f: Field, m: int, ex: int, ey: int): nat
    requires Valid(f) && 0 <= m <= f.sizeX
    decreases m
  {
    if m == 0 then 0 else MinesBefore(f, m - 1, ex, ey) + ColumnMines(f, m, f.sizeY, ex, ey)
  }

  /** Mines on every cell except (ex, ey). */
  function MinesOutside(f: Field, ex: int, ey: int): nat
    requires Valid(f)
  {
    MinesBefore(f, f.sizeX, ex, ey)
  }

  /** Mines on the whole field. */
  function MineCount(f: Field): nat
    requires Valid(f)
  {
    MinesOutside(f, 0, 0)
  }

  /** A column count only reads the mines of the rows it covers. */
  lemma {:induction false} ColumnMinesAgree(f: Field, g: Field, x: int, k: int, ex: int, ey: int)
    requires Valid(f) && Valid(g) && f.sizeY == g.sizeY && 0 <= k <= f.sizeY
    requires forall b :: 1 <= b <= k ==> GetCell(f, x, b).isMine == GetCell(g, x, b).isMine
    ensures ColumnMines(f, x, k, ex, ey) == ColumnMines(g, x, k, ex, ey)
    decreases k
  {
    if k > 0 {
      ColumnMinesAgree(f, g, x, k - 1, ex, ey);
    }
  }

  /** A count over columns 1..m only reads the mines of those columns. */
  lemma {:induction false} MinesBeforeAgree(f: Field, g: Field, m: int, ex: int, ey: int)
    requires Valid(f) && Valid(g) && f.sizeX == g.sizeX && 0 <= m <= f.sizeX
    requires forall a, b :: 1 <= a <= m && 1 <= b <= f.sizeY ==>
               GetCell(f, a, b).isMine == GetCell(g, a, b).isMine
    ensures MinesBefore(f, m, ex, ey) == MinesBefore(g, m, ex, ey)
    decreases m
  {
    if m > 0 {
      MinesBeforeAgree(f, g, m - 1, ex, ey);
      ColumnMinesAgree(f, g, m, f.sizeY, ex, ey);
    }
  }

  /** Fields that agree on every mine have the same number of mines. */
  lemma MineCountAgree(f: Field, g: Field)
    requires Valid(f) && Valid(g) && f.sizeX == g.sizeX
    requires forall a, b :: InRange(f, a, b) ==> GetCell(f, a, b).isMine == GetCell(g, a, b).isMine
    ensures MineCount(f) == MineCount(g)
  {
    MinesBeforeAgree(f, g, f.sizeX, 0, 0);
  }
}
