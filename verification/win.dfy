/** The win check: two conditions, each checked on every cell the field's iterator
    yields. The iterator yields fresh free cells for row 0 and column 0 and never
    reaches the last row and column, which decides what the check sees. */
module Winning {
  import opened Cells
  import opened Fields
  import opened Iteration

  /** First condition: the cell is marked exactly when it holds a mine. */
  predicate MarksMatchMines(c: Cell)
  {
    c.isMarked == c.isMine
  }

  /** Second condition: the cell holds a mine or has been uncovered. */
  predicate MineOrVisible(c: Cell)
  {
    c.isMine || c.isVisible
  }

  /** `checkWinningCondition`: false at the first yielded cell that fails the
      condition, true when none does. */
  method CheckWinningCondition(f: Field, winCondition: Cell -> bool) returns (r: bool)
    requires Valid(f)
    ensures r <==> forall c :: c in IterCells(f) ==> winCondition(c)
  {
    var cells := IterCells(f);
    for t := 0 to |cells|
      invariant forall s :: 0 <= s < t ==> winCondition(cells[s])
    {
      if !winCondition(cells[t]) {
        return false;
      }
    }
    return true;
  }

  /** The first condition holds over the iteration exactly when every stored cell the
      iterator reaches is marked just when it is a mine; the fresh cells pass it. */
  lemma MarksMatchOverIteration(f: Field)
    requires Valid(f)
    ensures (forall c :: c in IterCells(f) ==> MarksMatchMines(c)) <==>
            (forall a, b :: VisitsStored(f.sizeX, a, b) ==> GetCell(f, a, b).isMarked == GetCell(f, a, b).isMine)
  {
    IterCellsShape(f);
  }

  /** The second condition never holds on a field larger than one cell: the first
      cell yielded is a fresh free hidden cell. */
  lemma UncoveringNeverWins(f: Field)
    requires Valid(f) && f.sizeX > 1
    ensures !(forall c :: c in IterCells(f) ==> MineOrVisible(c))
  {
    IterCellsShape(f);
    assert IterCells(f)[0] in IterCells(f);
  }

  /** A field of at most 2 x 2 has no stored cell the iterator reaches. */
  lemma NoStoredVisits(n: int)
    requires n <= 2
    ensures forall a, b :: !VisitsStored(n, a, b)
  {
  }

  /** `checkWin`: either condition wins. As the second never holds on a field of
      more than one cell, and a one-cell field yields nothing, the game is won
      exactly when every cell at a position in [1, size - 1] x [1, size - 1] other
      than (size - 1, size - 1) is marked just when it is a mine. A 2 x 2 field has
      no such cell, so it is won as soon as it is checked. */
  method CheckWin(f: Field) returns (r: bool)
    requires Valid(f)
    ensures r <==> forall a, b :: VisitsStored(f.sizeX, a, b) ==> GetCell(f, a, b).isMarked == GetCell(f, a, b).isMine
    ensures f.sizeX <= 2 ==> r
  {
    MarksMatchOverIteration(f);
    if f.sizeX <= 2 {
      NoStoredVisits(f.sizeX);
    }
    r := CheckWinningCondition(f, MarksMatchMines);
    if !r {
      UncoveringNeverWins(f);
      r := CheckWinningCondition(f, MineOrVisible);
    }
  }
}
