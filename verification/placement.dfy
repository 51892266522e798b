/** Mine placement: the clamp of the requested mine count and `renew`, one sweep over
    the field that decides each cell with probability (mines left) / (cells left). */
module Placement {
  import opened Cells
  import opened Fields

  function Min(a: int, b: int): int
  {
    if a <= b then a else b
  }

  /** The constructor's clamp: a requested count outside 0..sizeX*sizeY becomes
      sizeX*sizeY - 1. */
  function ClampMines(sizeX: int, sizeY: int, mines: int): (m: int)
    ensures 0 <= mines <= sizeX * sizeY ==> m == mines
    ensures !(0 <= mines <= sizeX * sizeY) ==> m == sizeX * sizeY - 1
    ensures sizeX * sizeY >= 1 ==> 0 <= m <= sizeX * sizeY
  {
    if 0 <= mines <= sizeX * sizeY then mines else sizeX * sizeY - 1
  }

  /** `isAdd` as written: the ratio of mines left to cells left, compared with a
      random number r drawn from [0, 1). */
  function IsAddReal(mines: int, cells: int, r: real): bool
    requires cells >= 1
  {
    (mines as real) / (cells as real) > r
  }

  /** `isAdd` with the random number replaced by an oracle bit. */
  function IsAdd(mines: int, cells: int, bit: bool): bool
    requires cells >= 1
  {
    if mines >= cells then true else if mines <= 0 then false else bit
  }

  /** The oracle decides as the random number does: with at least as many mines
      left as cells the decision is always to place, with none left it is never to
      place, and otherwise the drawn number decides as the bit would. */
  lemma IsAddForced(mines: int, cells: int, r: real)
    requires cells >= 1 && 0.0 <= r < 1.0
    ensures mines >= cells ==> IsAddReal(mines, cells, r)
    ensures mines <= 0 ==> !IsAddReal(mines, cells, r)
    ensures IsAddReal(mines, cells, r) == IsAdd(mines, cells, IsAddReal(mines, cells, r))
  {
    if mines >= cells {
      assert (mines as real) / (cells as real) >= 1.0;
    }
  }

  /** Where the decision is not forced, both outcomes occur for some random number,
      so every bit sequence is the trace of some run. */
  lemma IsAddBothWays(mines: int, cells: int)
    requires 0 < mines < cells
    ensures IsAddReal(mines, cells, 0.0)
    ensures 0.0 <= (mines as real) / (cells as real) < 1.0
    ensures !IsAddReal(mines, cells, (mines as real) / (cells as real))
  {
    assert (mines as real) / (cells as real) > 0.0;
  }

  /** A cell keeps its mark and its adjacent count. */
  predicate KeepsMarkAndCount(c: Cell, d: Cell)
  {
    c.isMarked == d.isMarked && c.adjacentMines == d.adjacentMines
  }

  /** Sweep positions before (i, j) in the order `renew` visits them: column by
      column, and down each column. */
  predicate SweptBefore(a: int, b: int, i: int, j: int)
  {
    a < i || (a == i && b < j)
  }

  /** What the sweep has done to the cells by the time it reaches (i, j): marks and
      counts kept everywhere, the cells not yet swept untouched, the swept ones
      hidden, and the excluded cell (ex, ey), if inside the field, untouched. */
  ghost predicate Swept(f: Field, g: Field, i: int, j: int, ex: int, ey: int)
  {
    && Valid(f) && Valid(g) && SameShape(f, g)
    && (forall a, b :: InRange(f, a, b) ==> KeepsMarkAndCount(GetCell(g, a, b), GetCell(f, a, b)))
    && (forall a, b :: InRange(f, a, b) && !SweptBefore(a, b, i, j) ==> GetCell(g, a, b) == GetCell(f, a, b))
    && (forall a, b :: InRange(f, a, b) && SweptBefore(a, b, i, j) && (a, b) != (ex, ey) ==>
          !GetCell(g, a, b).isVisible)
    && (InRange(f, ex, ey) ==> GetCell(g, ex, ey) == GetCell(f, ex, ey))
  }

  /** Deciding cell (i, j) and hiding it moves the sweep one cell on. */
  lemma SweepDecides(f: Field, g: Field, i: int, j: int, ex: int, ey: int, add: bool)
    requires Swept(f, g, i, j, ex, ey) && InRange(f, i, j) && (i, j) != (ex, ey)
    ensures Swept(f, SetCell(g, GetCell(g, i, j).(isMine := add, isVisible := false)), i, j + 1, ex, ey)
  {
  }

  /** Skipping the excluded cell moves the sweep one cell on. */
  lemma SweepSkips(f: Field, g: Field, i: int, j: int, ex: int, ey: int)
    requires Swept(f, g, i, j, ex, ey) && (i, j) == (ex, ey)
    ensures Swept(f, g, i, j + 1, ex, ey)
  {
  }

  /** Finishing a column starts the next one. */
  lemma SweepNextColumn(f: Field, g: Field, i: int, ex: int, ey: int)
    requires Swept(f, g, i, f.sizeY + 1, ex, ey)
    ensures Swept(f, g, i + 1, 1, ex, ey)
  {
  }

  /** Storing a cell leaves the counts of the cells swept before it alone. */
  lemma StoreKeepsEarlierCounts(g: Field, c: Cell, ex: int, ey: int)
    requires Valid(g) && InRange(g, c.x, c.y)
    ensures MinesBefore(SetCell(g, c), c.x - 1, ex, ey) == MinesBefore(g, c.x - 1, ex, ey)
    ensures ColumnMines(SetCell(g, c), c.x, c.y - 1, ex, ey) == ColumnMines(g, c.x, c.y - 1, ex, ey)
  {
    var g' := SetCell(g, c);
    MinesBeforeAgree(g, g', c.x - 1, ex, ey);
    ColumnMinesAgree(g, g', c.x, c.y - 1, ex, ey);
  }

  /** A stored cell counts once in its own column, unless it is the excluded one. */
  lemma StoreCountsItself(g: Field, c: Cell, ex: int, ey: int)
    requires Valid(g) && InRange(g, c.x, c.y)
    ensures ColumnMines(SetCell(g, c), c.x, c.y, ex, ey)
            == ColumnMines(SetCell(g, c), c.x, c.y - 1, ex, ey) + (if (c.x, c.y) != (ex, ey) && c.isMine then 1 else 0)
  {
    var g' := SetCell(g, c);
    assert GetCell(g', c.x, c.y) == c;
  }

  /** Storing a decided cell adds its decision to the mines swept so far. */
  lemma SweepCounts(g: Field, c: Cell, ex: int, ey: int)
    requires Valid(g) && InRange(g, c.x, c.y) && (c.x, c.y) != (ex, ey)
    ensures MinesBefore(SetCell(g, c), c.x - 1, ex, ey) + ColumnMines(SetCell(g, c), c.x, c.y, ex, ey)
            == MinesBefore(g, c.x - 1, ex, ey) + ColumnMines(g, c.x, c.y - 1, ex, ey) + (if c.isMine then 1 else 0)
  {
    StoreKeepsEarlierCounts(g, c, ex, ey);
    StoreCountsItself(g, c, ex, ey);
  }

  /** The cell `renew(x, y)` skips, or (0, 0), which is never swept, when (x, y) is
      outside the field. */
  function Excluded(f: Field, x: int, y: int): (int, int)
  {
    if InRange(f, x, y) then (x, y) else (0, 0)
  }

  /** 1 while the excluded cell is still ahead of position (i, j) of the sweep. */
  function Ahead(f: Field, e: (int, int), i: int, j: int): int
  {
    if InRange(f, e.0, e.1) && (e.0 > i || (e.0 == i && e.1 >= j)) then 1 else 0
  }

  /** The cells of columns i..n of an n-by-n field. */
  function CellsFrom(n: int, i: int): (r: int)
    ensures n >= 0 ==> r >= 0
    decreases n + 1 - i
  {
    if i > n then 0 else n + CellsFrom(n, i + 1)
  }

  /** Columns i..n hold (n + 1 - i) * n cells; all of them, n * n. */
  lemma {:induction false} CellsFromProduct(n: int, i: int)
    requires 1 <= i <= n + 1
    ensures CellsFrom(n, i) == (n + 1 - i) * n
    decreases n + 1 - i
  {
    if i <= n {
      CellsFromProduct(n, i + 1);
    }
  }

  /** The cells still to decide when the sweep reaches (i, j): (i, j) itself unless
      it is the excluded one, the rest of column i, and the columns after it. */
  function CellsLeft(f: Field, e: (int, int), i: int, j: int): int
  {
    CellsFrom(f.sizeX, i) - (j - 1) - Ahead(f, e, i, j)
  }

  /** The number of decisions `renew(x, y)` makes: one per cell but the excluded one. */
  function Draws(f: Field, x: int, y: int): int
  {
    Area(f) - (if InRange(f, x, y) then 1 else 0)
  }

  /** The counters of the sweep at position (i, j): `cells` counts the cells still
      to decide, `k` the decisions made (and random numbers drawn), `mines` the
      mines still to place, which never run out before the cells unless the
      excluded cell took the last place. */
  ghost predicate Counting(f: Field, e: (int, int), i: int, j: int, mines: int, cells: int, k: int, total: int)
  {
    && cells == CellsFrom(f.sizeX, i) - (j - 1) - Ahead(f, e, i, j)
    && 0 <= k == total - cells
    && 0 <= mines
    && (mines <= cells || (mines == cells + 1 && f.minesAtStart == total + 1))
    && f.minesAtStart - mines <= k
  }

  /** At a cell that is decided there is a cell left to decide, so `isAdd` divides by
      a positive count and a random number is left to draw. */
  lemma CountingHasRoom(f: Field, e: (int, int), i: int, j: int, mines: int, cells: int, k: int, total: int)
    requires Valid(f) && InRange(f, i, j) && (i, j) != e
    requires e == (0, 0) || InRange(f, e.0, e.1)
    requires Counting(f, e, i, j, mines, cells, k, total)
    ensures cells >= 1 && 0 <= k < total
  {
    assert CellsFrom(f.sizeX, i) == f.sizeX + CellsFrom(f.sizeX, i + 1);
  }

  /** The decision at a cell keeps the counters in step. */
  lemma CountingDecides(f: Field, e: (int, int), i: int, j: int, mines: int, cells: int, k: int, total: int, bit: bool)
    requires Valid(f) && InRange(f, i, j) && (i, j) != e
    requires Counting(f, e, i, j, mines, cells, k, total) && cells >= 1
    ensures var add := IsAdd(mines, cells, bit);
            Counting(f, e, i, j + 1, if add then mines - 1 else mines, cells - 1, k + 1, total)
  {
  }

  /** Skipping the excluded cell leaves the counters as they are. */
  lemma CountingSkips(f: Field, e: (int, int), i: int, j: int, mines: int, cells: int, k: int, total: int)
    requires Valid(f) && InRange(f, i, j) && (i, j) == e
    requires Counting(f, e, i, j, mines, cells, k, total)
    ensures Counting(f, e, i, j + 1, mines, cells, k, total)
  {
  }

  /** The counters at the end of a column are those at the start of the next. */
  lemma CountingNextColumn(f: Field, e: (int, int), i: int, mines: int, cells: int, k: int, total: int)
    requires Valid(f) && 1 <= i <= f.sizeX
    requires Counting(f, e, i, f.sizeY + 1, mines, cells, k, total)
    ensures Counting(f, e, i + 1, 1, mines, cells, k, total)
  {
  }

  /** The mines still to place when the sweep reaches (i, j): those of f less the ones
      g holds on the cells swept before (i, j), the excluded cell not counted. */
  function MinesLeft(f: Field, g: Field, e: (int, int), i: int, j: int): int
    requires Valid(g) && 1 <= i <= g.sizeX && 0 <= j - 1 <= g.sizeY
  {
    f.minesAtStart - MinesBefore(g, i - 1, e.0, e.1) - ColumnMines(g, i, j - 1, e.0, e.1)
  }

  /** The mines placed so far, counted over the cells swept before (i, j). */
  ghost predicate Placed(f: Field, g: Field, e: (int, int), i: int, j: int, mines: int)
    requires Valid(g) && 1 <= i <= g.sizeX && 0 <= j - 1 <= g.sizeY
  {
    mines == MinesLeft(f, g, e, i, j)
  }

  /** A decided cell counts its decision. */
  lemma PlacedDecides(f: Field, g: Field, e: (int, int), c: Cell, mines: int)
    requires Valid(g) && InRange(g, c.x, c.y) && (c.x, c.y) != e
    requires Placed(f, g, e, c.x, c.y, mines)
    ensures Placed(f, SetCell(g, c), e, c.x, c.y + 1, if c.isMine then mines - 1 else mines)
  {
    SweepCounts(g, c, e.0, e.1);
  }

  /** The excluded cell counts nothing. */
  lemma PlacedSkips(f: Field, g: Field, e: (int, int), mines: int)
    requires Valid(g) && InRange(g, e.0, e.1)
    requires Placed(f, g, e, e.0, e.1, mines)
    ensures Placed(f, g, e, e.0, e.1 + 1, mines)
  {
  }

  /** A finished column joins the columns before it. */
  lemma PlacedNextColumn(f: Field, g: Field, e: (int, int), i: int, mines: int)
    requires Valid(g) && 1 <= i <= g.sizeX
    requires Placed(f, g, e, i, g.sizeY + 1, mines)
    ensures f.minesAtStart - mines == MinesBefore(g, i, e.0, e.1)
  {
  }

  /** Every cell swept before (i, j), the excluded one aside, holds the mine `isAdd`
      decided on the counts left when the sweep reached it: the mines g places on
      the earlier cells, the cells still to decide, and the draw numbered by the
      decisions made before it. */
  ghost predicate Drawn(f: Field, g: Field, e: (int, int), bits: seq<bool>, total: int, i: int, j: int)
  {
    && Valid(g) && |bits| >= total
    && forall a, b {:trigger CellsLeft(f, e, a, b)} :: InRange(g, a, b) && SweptBefore(a, b, i, j) && (a, b) != e ==>
         && 1 <= CellsLeft(f, e, a, b) <= total
         && GetCell(g, a, b).isMine ==
              IsAdd(MinesLeft(f, g, e, a, b), CellsLeft(f, e, a, b), bits[total - CellsLeft(f, e, a, b)])
  }

  /** Storing a cell leaves the mines left at every earlier position alone. */
  lemma StoreKeepsMinesLeft(f: Field, g: Field, c: Cell, e: (int, int), a: int, b: int)
    requires Valid(g) && InRange(g, c.x, c.y) && InRange(g, a, b) && SweptBefore(a, b, c.x, c.y)
    ensures MinesLeft(f, SetCell(g, c), e, a, b) == MinesLeft(f, g, e, a, b)
  {
    var g' := SetCell(g, c);
    MinesBeforeAgree(g, g', a - 1, e.0, e.1);
    ColumnMinesAgree(g, g', a, b - 1, e.0, e.1);
  }

  /** A cell decided by its draw joins the drawn cells. */
  lemma DrawnDecides(f: Field, g: Field, e: (int, int), bits: seq<bool>, total: int, c: Cell)
    requires Valid(g) && InRange(g, c.x, c.y) && (c.x, c.y) != e
    requires Drawn(f, g, e, bits, total, c.x, c.y)
    requires 1 <= CellsLeft(f, e, c.x, c.y) <= total
    requires c.isMine == IsAdd(MinesLeft(f, g, e, c.x, c.y), CellsLeft(f, e, c.x, c.y), bits[total - CellsLeft(f, e, c.x, c.y)])
    ensures Drawn(f, SetCell(g, c), e, bits, total, c.x, c.y + 1)
  {
    var g' := SetCell(g, c);
    forall a, b | InRange(g', a, b) && SweptBefore(a, b, c.x, c.y + 1) && (a, b) != e
      ensures 1 <= CellsLeft(f, e, a, b) <= total
      ensures GetCell(g', a, b).isMine ==
                IsAdd(MinesLeft(f, g', e, a, b), CellsLeft(f, e, a, b), bits[total - CellsLeft(f, e, a, b)])
    {
      if (a, b) == (c.x, c.y) {
        StoreKeepsEarlierCounts(g, c, e.0, e.1);
      } else {
        assert GetCell(g', a, b) == GetCell(g, a, b);
        StoreKeepsMinesLeft(f, g, c, e, a, b);
      }
    }
  }

  /** Skipping the excluded cell draws nothing. */
  lemma DrawnSkips(f: Field, g: Field, e: (int, int), bits: seq<bool>, total: int)
    requires Drawn(f, g, e, bits, total, e.0, e.1)
    ensures Drawn(f, g, e, bits, total, e.0, e.1 + 1)
  {
  }

  /** Finishing a column starts the next one. */
  lemma DrawnNextColumn(f: Field, g: Field, e: (int, int), bits: seq<bool>, total: int, i: int)
    requires Drawn(f, g, e, bits, total, i, g.sizeY + 1)
    ensures Drawn(f, g, e, bits, total, i + 1, 1)
  {
  }

  /** One pass of the inner loop of `renew`, at cell (i, j). */
  method SweepCell(f: Field, g: Field, i: int, j: int, x: int, y: int, bits: seq<bool>,
                   mines: int, cells: int, k: int, ghost total: int, ghost e: (int, int))
    returns (g': Field, mines': int, cells': int, k': int)
    requires InRange(f, i, j)
    requires |bits| >= total && e == Excluded(f, x, y)
    requires Swept(f, g, i, j, e.0, e.1)
    requires Counting(f, e, i, j, mines, cells, k, total)
    requires Placed(f, g, e, i, j, mines)
    requires Drawn(f, g, e, bits, total, i, j)
    ensures Swept(f, g', i, j + 1, e.0, e.1)
    ensures Counting(f, e, i, j + 1, mines', cells', k', total)
    ensures Placed(f, g', e, i, j + 1, mines')
    ensures Drawn(f, g', e, bits, total, i, j + 1)
  {
    if i == x && j == y {
      // the excluded cell is skipped before any assignment
      SweepSkips(f, g, i, j, e.0, e.1);
      CountingSkips(f, e, i, j, mines, cells, k, total);
      PlacedSkips(f, g, e, mines);
      DrawnSkips(f, g, e, bits, total);
      g', mines', cells', k' := g, mines, cells, k;
    } else {
      CountingHasRoom(f, e, i, j, mines, cells, k, total);
      CountingDecides(f, e, i, j, mines, cells, k, total, bits[k]);
      var add := IsAdd(mines, cells, bits[k]);
      mines' := if add then mines - 1 else mines;
      var decided := GetCell(g, i, j).(isMine := add, isVisible := false);
      SweepDecides(f, g, i, j, e.0, e.1, add);
      PlacedDecides(f, g, e, decided, mines);
      DrawnDecides(f, g, e, bits, total, decided);
      g' := SetCell(g, decided);
      cells' := cells - 1;
      k' := k + 1;
    }
  }

  /** The rest of column i from row j on: the inner loop of `renew`. */
  method SweepRows(f: Field, g: Field, i: int, j: int, x: int, y: int, bits: seq<bool>,
                   mines: int, cells: int, k: int, ghost total: int, ghost e: (int, int))
    returns (g': Field, mines': int, cells': int, k': int)
    requires 1 <= i <= f.sizeX && 1 <= j <= f.sizeY + 1
    requires |bits| >= total && e == Excluded(f, x, y)
    requires Swept(f, g, i, j, e.0, e.1)
    requires Counting(f, e, i, j, mines, cells, k, total)
    requires Placed(f, g, e, i, j, mines)
    requires Drawn(f, g, e, bits, total, i, j)
    ensures Swept(f, g', i, f.sizeY + 1, e.0, e.1)
    ensures Counting(f, e, i, f.sizeY + 1, mines', cells', k', total)
    ensures Placed(f, g', e, i, f.sizeY + 1, mines')
    ensures Drawn(f, g', e, bits, total, i, f.sizeY + 1)
    decreases f.sizeY + 1 - j
  {
    if j > f.sizeY {
      g', mines', cells', k' := g, mines, cells, k;
    } else {
      var g1, mines1, cells1, k1 := SweepCell(f, g, i, j, x, y, bits, mines, cells, k, total, e);
      g', mines', cells', k' := SweepRows(f, g1, i, j + 1, x, y, bits, mines1, cells1, k1, total, e);
    }
  }

  /** One column of the sweep, rows 1 to `sizeY`. */
  method SweepColumn(f: Field, g: Field, i: int, x: int, y: int, bits: seq<bool>,
                     mines: int, cells: int, k: int, ghost total: int, ghost e: (int, int))
    returns (g': Field, mines': int, cells': int, k': int)
    requires 1 <= i <= f.sizeX
    requires |bits| >= total && e == Excluded(f, x, y)
    requires Swept(f, g, i, 1, e.0, e.1)
    requires Counting(f, e, i, 1, mines, cells, k, total)
    requires f.minesAtStart - mines == MinesBefore(g, i - 1, e.0, e.1)
    requires Drawn(f, g, e, bits, total, i, 1)
    ensures Swept(f, g', i + 1, 1, e.0, e.1)
    ensures Counting(f, e, i + 1, 1, mines', cells', k', total)
    ensures f.minesAtStart - mines' == MinesBefore(g', i, e.0, e.1)
    ensures Drawn(f, g', e, bits, total, i + 1, 1)
  {
    g', mines', cells', k' := SweepRows(f, g, i, 1, x, y, bits, mines, cells, k, total, e);
    SweepNextColumn(f, g', i, e.0, e.1);
    CountingNextColumn(f, e, i, mines', cells', k', total);
    PlacedNextColumn(f, g', e, i, mines');
    DrawnNextColumn(f, g', e, bits, total, i);
  }

  /** The columns from i on: the outer loop of `renew`. */
  method SweepColumns(f: Field, g: Field, i: int, x: int, y: int, bits: seq<bool>,
                      mines: int, cells: int, k: int, ghost total: int, ghost e: (int, int))
    returns (g': Field, mines': int, cells': int, k': int)
    requires 1 <= i <= f.sizeX + 1
    requires |bits| >= total && e == Excluded(f, x, y)
    requires Swept(f, g, i, 1, e.0, e.1)
    requires Counting(f, e, i, 1, mines, cells, k, total)
    requires f.minesAtStart - mines == MinesBefore(g, i - 1, e.0, e.1)
    requires Drawn(f, g, e, bits, total, i, 1)
    ensures Swept(f, g', f.sizeX + 1, 1, e.0, e.1)
    ensures Counting(f, e, f.sizeX + 1, 1, mines', cells', k', total)
    ensures f.minesAtStart - mines' == MinesBefore(g', f.sizeX, e.0, e.1)
    ensures Drawn(f, g', e, bits, total, f.sizeX + 1, 1)
    decreases f.sizeX + 1 - i
  {
    if i > f.sizeX {
      g', mines', cells', k' := g, mines, cells, k;
    } else {
      var g1, mines1, cells1, k1 := SweepColumn(f, g, i, x, y, bits, mines, cells, k, total, e);
      g', mines', cells', k' := SweepColumns(f, g1, i + 1, x, y, bits, mines1, cells1, k1, total, e);
    }
  }

  /** Before the sweep: nothing swept, no decision made, `cells` one short of the
      field's area exactly when a cell is excluded. */
  lemma SweepStarts(f: Field, e: (int, int), cells: int)
    requires Valid(f) && (e == (0, 0) || InRange(f, e.0, e.1))
    requires cells == Area(f) - (if InRange(f, e.0, e.1) then 1 else 0)
    ensures Swept(f, f, 1, 1, e.0, e.1)
    ensures Counting(f, e, 1, 1, f.minesAtStart, cells, 0, cells)
    ensures f.minesAtStart - f.minesAtStart == MinesBefore(f, 0, e.0, e.1)
  {
    CellsFromProduct(f.sizeX, 1);
  }

  /** After the sweep: every cell swept, no cell left to decide, and the mines placed
      are all the mines there were, or one fewer when the excluded cell took the
      last place. */
  lemma SweepEnds(f: Field, g: Field, e: (int, int), mines: int, cells: int, k: int, total: int)
    requires Valid(f) && (e == (0, 0) || InRange(f, e.0, e.1))
    requires total == Area(f) - (if InRange(f, e.0, e.1) then 1 else 0)
    requires Swept(f, g, f.sizeX + 1, 1, e.0, e.1)
    requires Counting(f, e, f.sizeX + 1, 1, mines, cells, k, total)
    requires f.minesAtStart - mines == MinesBefore(g, f.sizeX, e.0, e.1)
    ensures MinesOutside(g, e.0, e.1) == Min(f.minesAtStart, total)
    ensures forall a, b :: InRange(f, a, b) && (a, b) != e ==> !GetCell(g, a, b).isVisible
  {
    assert cells == 0;
  }

  /** Before the sweep no cell is drawn. */
  lemma DrawnStarts(f: Field, e: (int, int), bits: seq<bool>, total: int)
    requires Valid(f) && |bits| >= total
    ensures Drawn(f, f, e, bits, total, 1, 1)
  {
  }

  /** After the sweep every cell but the excluded one holds its drawn decision. */
  lemma DrawnEnds(f: Field, g: Field, x: int, y: int, bits: seq<bool>)
    requires Valid(f) && Valid(g) && SameShape(f, g)
    requires Drawn(f, g, Excluded(f, x, y), bits, Draws(f, x, y), f.sizeX + 1, 1)
    ensures forall a, b {:trigger CellsLeft(f, Excluded(f, x, y), a, b)} :: InRange(f, a, b) && (a, b) != (x, y) ==>
              var e := Excluded(f, x, y);
              && 1 <= CellsLeft(f, e, a, b) <= Draws(f, x, y)
              && GetCell(g, a, b).isMine ==
                   IsAdd(MinesLeft(f, g, e, a, b), CellsLeft(f, e, a, b), bits[Draws(f, x, y) - CellsLeft(f, e, a, b)])
  {
  }

  /** `renew(x, y)`: every cell but (x, y), when that is inside the field, is decided
      in turn by `isAdd` on the counts left, bits[k] standing for the k-th random
      draw, and hidden again. With no cell excluded exactly `minesAtStart` mines are
      placed; with (x, y) excluded the cell is left as it was (mine included) and
      the other cells get min(minesAtStart, sizeX*sizeY - 1) mines, because the
      excluded cell is taken off the cell count but not off the mine count. Each
      decided cell holds the mine `isAdd` chose from the mines left, the cells left
      and its own draw, so equal draws give equal fields. Marks and adjacent counts
      are not touched. */
  method Renew(f: Field, x: int, y: int, bits: seq<bool>) returns (g: Field)
    requires Valid(f)
    requires |bits| >= Area(f)
    ensures Valid(g) && SameShape(f, g)
    ensures !InRange(f, x, y) ==> MineCount(g) == f.minesAtStart
    ensures InRange(f, x, y) ==> MinesOutside(g, x, y) == Min(f.minesAtStart, Area(f) - 1)
    ensures InRange(f, x, y) ==> GetCell(g, x, y) == GetCell(f, x, y)
    ensures forall a, b :: InRange(f, a, b) && (a, b) != (x, y) ==> !GetCell(g, a, b).isVisible
    ensures forall a, b :: InRange(f, a, b) ==> KeepsMarkAndCount(GetCell(g, a, b), GetCell(f, a, b))
    ensures forall a, b {:trigger CellsLeft(f, Excluded(f, x, y), a, b)} :: InRange(f, a, b) && (a, b) != (x, y) ==>
              var e := Excluded(f, x, y);
              && 1 <= CellsLeft(f, e, a, b) <= Draws(f, x, y)
              && GetCell(g, a, b).isMine ==
                   IsAdd(MinesLeft(f, g, e, a, b), CellsLeft(f, e, a, b), bits[Draws(f, x, y) - CellsLeft(f, e, a, b)])
  {
    var n := f.sizeX;
    var e := Excluded(f, x, y);
    var mines := f.minesAtStart;
    var cells := Area(f);
    if InRange(f, x, y) {
      cells := cells - 1;
    }
    ghost var total := cells;
    SweepStarts(f, e, cells);
    DrawnStarts(f, e, bits, total);
    var k;
    g, mines, cells, k := SweepColumns(f, f, 1, x, y, bits, mines, cells, 0, total, e);
    SweepEnds(f, g, e, mines, cells, k, total);
    DrawnEnds(f, g, x, y, bits);
  }
}
