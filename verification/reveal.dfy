/** `reveal`: uncovering a cell and, when it has no adjacent mines, its adjacent
    cells in turn. Since `adjacentCells` hands back only the diagonal neighbour
    (x + 1, y + 1) and seven fresh cells at (0, 0), the recursion runs down the
    diagonal and the calls on (0, 0) fall outside the field and change nothing. */
module Revealing {
  import opened Cells
  import opened Fields
  import opened Adjacency

  /** The field after a reveal, with the answer `reveal` returns: false when the
      target was a mine. */
  datatype Revealed = Revealed(field: Field, safe: bool)

  /** Steps left before the diagonal walk from column x leaves the field; the
      recursion of `reveal` descends along it. */
  function Rank(f: Field, x: int, y: int): nat
  {
    if InRange(f, x, y) then f.sizeX + 1 - x else 0
  }

  /** g differs from f at most in cells that were hidden and are now visible. */
  ghost predicate OnlyUncovers(f: Field, g: Field)
  {
    && Valid(f) && Valid(g) && SameShape(f, g)
    && forall a, b {:trigger GetCell(g, a, b)} :: InRange(f, a, b) ==>
         && GetCell(g, a, b) == GetCell(f, a, b).(isVisible := GetCell(g, a, b).isVisible)
         && (GetCell(f, a, b).isVisible ==> GetCell(g, a, b).isVisible)
  }

  /** The cells a reveal of (x, y) uncovers: walking down the diagonal from (x, y),
      every free cell inside the field, up to and including the first one with
      adjacent mines. */
  ghost predicate OnChain(f: Field, x: int, y: int, a: int, b: int)
    requires Valid(f)
    decreases Rank(f, x, y)
  {
    && InRange(f, x, y) && !GetCell(f, x, y).isMine
    && ((a, b) == (x, y) || (GetCell(f, x, y).adjacentMines == 0 && OnChain(f, x + 1, y + 1, a, b)))
  }

  /** The chain only reads mines and adjacent counts, so uncovering cells does not
      move it. */
  lemma {:induction false} OnChainAgree(f: Field, g: Field, x: int, y: int, a: int, b: int)
    requires OnlyUncovers(f, g)
    ensures OnChain(f, x, y, a, b) == OnChain(g, x, y, a, b)
    decreases Rank(f, x, y)
  {
    if InRange(f, x, y) {
      assert GetCell(g, x, y) == GetCell(f, x, y).(isVisible := GetCell(g, x, y).isVisible);
      OnChainAgree(f, g, x + 1, y + 1, a, b);
    }
  }

  /** Every cell on the chain lies on the diagonal from (x, y), down and to the right. */
  lemma {:induction false} OnChainDiagonal(f: Field, x: int, y: int, a: int, b: int)
    requires Valid(f) && OnChain(f, x, y, a, b)
    ensures a - x == b - y && a >= x
    decreases Rank(f, x, y)
  {
    if (a, b) != (x, y) {
      OnChainDiagonal(f, x + 1, y + 1, a, b);
    }
  }

  /** The field a reveal of (x, y) leaves: every cell on the chain from (x, y) made
      visible, everything else as it was. */
  ghost function Uncovered(f: Field, x: int, y: int): (g: Field)
    requires Valid(f)
    ensures Valid(g) && SameShape(f, g)
    ensures forall a, b :: InRange(f, a, b) ==>
              GetCell(g, a, b) == GetCell(f, a, b).(isVisible := GetCell(f, a, b).isVisible || OnChain(f, x, y, a, b))
  {
    f.(grid := seq(f.sizeX, r requires 0 <= r < f.sizeX => seq(f.sizeY, c requires 0 <= c < f.sizeY =>
         f.grid[r][c].(isVisible := f.grid[r][c].isVisible || OnChain(f, x, y, c + 1, r + 1)))))
  }

  /** Uncovering the chain uncovers and nothing else. */
  lemma UncoveredOnlyUncovers(f: Field, x: int, y: int)
    requires Valid(f)
    ensures OnlyUncovers(f, Uncovered(f, x, y))
  {
  }

  /** With no chain (a mine, or a position outside the field) nothing is uncovered. */
  lemma UncoveredNothing(f: Field, x: int, y: int)
    requires Valid(f) && (!InRange(f, x, y) || GetCell(f, x, y).isMine)
    ensures Uncovered(f, x, y) == f
  {
    var g := Uncovered(f, x, y);
    forall a, b | InRange(f, a, b)
      ensures GetCell(f, a, b) == GetCell(g, a, b)
    {
      assert !OnChain(f, x, y, a, b);
    }
    FieldsEqual(f, g);
  }

  /** The field with cell (x, y) made visible, its mark left as it is. */
  function Show(f: Field, x: int, y: int): (g: Field)
    requires Valid(f) && InRange(f, x, y)
    ensures OnlyUncovers(f, g)
    ensures forall a, b :: InRange(f, a, b) ==>
              (GetCell(g, a, b).isVisible <==> GetCell(f, a, b).isVisible || (a, b) == (x, y))
  {
    SetCell(f, GetCell(f, x, y).(isVisible := true))
  }

  /** A free cell with adjacent mines ends the chain at itself. */
  lemma UncoveredStop(f: Field, x: int, y: int)
    requires Valid(f) && InRange(f, x, y)
    requires !GetCell(f, x, y).isMine && GetCell(f, x, y).adjacentMines != 0
    ensures Show(f, x, y) == Uncovered(f, x, y)
  {
    var s := Show(f, x, y);
    var g := Uncovered(f, x, y);
    forall a, b | InRange(f, a, b)
      ensures GetCell(s, a, b) == GetCell(g, a, b)
    {
      assert OnChain(f, x, y, a, b) <==> (a, b) == (x, y);
    }
    FieldsEqual(s, g);
  }

  /** Cell (a, b) after showing (x, y). */
  lemma ShowAt(f: Field, x: int, y: int, a: int, b: int)
    requires Valid(f) && InRange(f, x, y) && InRange(f, a, b)
    ensures GetCell(Show(f, x, y), a, b) == GetCell(f, a, b).(isVisible := GetCell(f, a, b).isVisible || (a, b) == (x, y))
  {
  }

  /** Cell (a, b) after uncovering the chain from (x, y). */
  lemma UncoveredAt(f: Field, x: int, y: int, a: int, b: int)
    requires Valid(f) && InRange(f, a, b)
    ensures GetCell(Uncovered(f, x, y), a, b) == GetCell(f, a, b).(isVisible := GetCell(f, a, b).isVisible || OnChain(f, x, y, a, b))
  {
  }

  /** A free cell with no adjacent mines heads the chain of its diagonal neighbour. */
  lemma OnChainStep(f: Field, x: int, y: int, a: int, b: int)
    requires Valid(f) && InRange(f, x, y)
    requires !GetCell(f, x, y).isMine && GetCell(f, x, y).adjacentMines == 0
    ensures OnChain(f, x, y, a, b) <==> (a, b) == (x, y) || OnChain(f, x + 1, y + 1, a, b)
  {
  }

  /** Cell (a, b) after passing the chain on from (x, y) to its diagonal neighbour. */
  lemma UncoveredStepAt(f: Field, x: int, y: int, a: int, b: int)
    requires Valid(f) && InRange(f, x, y) && InRange(f, a, b)
    requires !GetCell(f, x, y).isMine && GetCell(f, x, y).adjacentMines == 0
    ensures GetCell(Uncovered(Show(f, x, y), x + 1, y + 1), a, b) == GetCell(Uncovered(f, x, y), a, b)
  {
    var s := Show(f, x, y);
    OnChainAgree(f, s, x + 1, y + 1, a, b);
    OnChainStep(f, x, y, a, b);
    ShowAt(f, x, y, a, b);
    UncoveredAt(s, x + 1, y + 1, a, b);
    UncoveredAt(f, x, y, a, b);
  }

  /** A free cell with no adjacent mines passes the chain on to its diagonal
      neighbour. */
  lemma UncoveredStep(f: Field, x: int, y: int)
    requires Valid(f) && InRange(f, x, y)
    requires !GetCell(f, x, y).isMine && GetCell(f, x, y).adjacentMines == 0
    ensures Uncovered(Show(f, x, y), x + 1, y + 1) == Uncovered(f, x, y)
  {
    var h := Uncovered(Show(f, x, y), x + 1, y + 1);
    var g := Uncovered(f, x, y);
    forall a, b | InRange(f, a, b)
      ensures GetCell(h, a, b) == GetCell(g, a, b)
    {
      UncoveredStepAt(f, x, y, a, b);
    }
    FieldsEqual(h, g);
  }

  /** `reveal(x, y)`: a mine answers false and changes nothing; a position outside
      the field answers true and changes nothing; any other cell is made visible,
      its mark left in place, and when its adjacent count is 0 each of its adjacent
      cells is revealed in turn, their answers ignored. Visible cells are not
      skipped. The result uncovers exactly the chain from (x, y). */
  method Reveal(f: Field, x: int, y: int) returns (r: Revealed)
    requires Valid(f)
    ensures r.field == Uncovered(f, x, y)
    ensures r.safe <==> !(InRange(f, x, y) && GetCell(f, x, y).isMine)
    ensures !r.safe || !InRange(f, x, y) ==> r.field == f
    ensures r.safe && InRange(f, x, y) ==> GetCell(r.field, x, y).isVisible
    decreases Rank(f, x, y)
  {
    var cell := GetCell(f, x, y);
    if GetCell(f, x, y).isMine {
      UncoveredNothing(f, x, y);
      return Revealed(f, false);
    }
    if InRange(f, x, y) {
      var shown := Show(f, x, y);
      if cell.adjacentMines == 0 {
        var adj := AdjacentCells(shown, cell.x, cell.y);
        var g := shown;
        for t := 0 to |adj|
          invariant Valid(g) && SameShape(f, g)
          invariant t == 0 ==> g == shown
          invariant t > 0 ==> g == Uncovered(shown, x + 1, y + 1)
        {
          // the first adjacent cell is the diagonal neighbour, the others lie outside
          if t == 0 {
            assert (adj[t].x, adj[t].y) == (x + 1, y + 1);
          } else {
            assert !InRange(g, adj[t].x, adj[t].y);
          }
          var answer := Reveal(g, adj[t].x, adj[t].y);
          g := answer.field;
        }
        UncoveredStep(f, x, y);
        assert GetCell(g, x, y).isVisible by {
          assert OnChain(f, x, y, x, y);
        }
        r := Revealed(g, true);
      } else {
        UncoveredStop(f, x, y);
        r := Revealed(shown, true);
      }
    } else {
      UncoveredNothing(f, x, y);
      r := Revealed(f, true);
    }
  }

  /** Revealing the same cell again changes nothing: the chain is read off mines and
      adjacent counts, which a reveal leaves alone. */
  lemma UncoveredTwice(f: Field, x: int, y: int)
    requires Valid(f)
    ensures Uncovered(Uncovered(f, x, y), x, y) == Uncovered(f, x, y)
  {
    var once := Uncovered(f, x, y);
    var twice := Uncovered(once, x, y);
    UncoveredOnlyUncovers(f, x, y);
    forall a, b | InRange(f, a, b)
      ensures GetCell(twice, a, b) == GetCell(once, a, b)
    {
      OnChainAgree(f, once, x, y, a, b);
    }
    FieldsEqual(twice, once);
  }
}
