/** Neighbour lookup and the adjacent-mine counts. `adjacentCells` walks the eight
    offsets but stores every lookup at index 0, which it never advances: it returns
    the cell diagonally down-right of (x, y) followed by seven fresh free cells at
    (0, 0). The counts are therefore 1 or 0 after that one diagonal neighbour. */
module Adjacency {
  import opened Cells
  import opened Fields
  import opened Iteration

  /** The eight neighbour offsets, in the field's order. */
  const Vectors: seq<(int, int)> := [(-1, -1), (-1, 0), (-1, 1), (0, -1), (0, 1), (1, -1), (1, 0), (1, 1)]

  /** A fresh free cell at (0, 0), as `adjacentCells` fills its result with. */
  const Dummy: Cell := NewCell(0, 0, false)

  /** `adjacentCells(x, y)`: the loop over the eight offsets stores each lookup at
      `index`, which stays 0, so the result holds the lookup at the last offset
      (1, 1) followed by seven fresh free cells at (0, 0). */
  method AdjacentCells(f: Field, x: int, y: int) returns (res: seq<Cell>)
    requires Valid(f)
    ensures |res| == 8
    ensures res[0] == GetCell(f, x + 1, y + 1)
    ensures forall t :: 1 <= t < |res| ==> res[t] == Dummy
  {
    res := seq(8, _ => Dummy);
    var index := 0;
    for t := 0 to |Vectors|
      invariant |res| == 8
      invariant t > 0 ==> res[0] == GetCell(f, x + Vectors[t - 1].0, y + Vectors[t - 1].1)
      invariant forall s :: 1 <= s < |res| ==> res[s] == Dummy
    {
      var pair := Vectors[t];
      res := res[index := GetCell(f, x + pair.0, y + pair.1)];
    }
  }

  /** The mines among a list of cells: the `neighbours` counter. */
  function CountMines(cs: seq<Cell>): (m: nat)
    ensures m <= |cs|
    ensures (forall t :: 0 <= t < |cs| ==> !cs[t].isMine) ==> m == 0
    ensures (forall t :: 0 <= t < |cs| ==> cs[t].isMine) ==> m == |cs|
  {
    if cs == [] then 0 else (if cs[0].isMine then 1 else 0) + CountMines(cs[1..])
  }

  /** Counting a list whose only possible mine is its first cell. */
  lemma CountsFirst(cs: seq<Cell>)
    requires |cs| >= 1 && forall t :: 1 <= t < |cs| ==> !cs[t].isMine
    ensures CountMines(cs) == if cs[0].isMine then 1 else 0
  {
    assert forall t :: 0 <= t < |cs[1..]| ==> !cs[1..][t].isMine by {
      forall t | 0 <= t < |cs[1..]|
        ensures !cs[1..][t].isMine
      {
        assert cs[1..][t] == cs[t + 1];
      }
    }
  }

  /** 1 when the cell diagonally down-right of (x, y) is a mine of the field. */
  function DiagonalMine(f: Field, x: int, y: int): int
    requires Valid(f)
  {
    if InRange(f, x + 1, y + 1) && GetCell(f, x + 1, y + 1).isMine then 1 else 0
  }

  /** The cell (a, b) of the field with the count `calculateAdjacent` assigns it. */
  function Recounted(f: Field, a: int, b: int): Cell
    requires Valid(f)
  {
    SetAdjacentMines(GetCell(f, a, b), DiagonalMine(f, a, b))
  }

  /** One pass of the loop of `calculateAdjacent`, on the cell the iterator yields
      for position (x, y): its count is recomputed and assigned through the setter;
      the assignment reaches the field only when the cell is a stored one. */
  function RecountCell(g: Field, x: int, y: int): Field
    requires Valid(g)
  {
    var cell := GetCell(g, x, y);
    var updated := SetAdjacentMines(cell, DiagonalMine(g, x, y));
    if InRange(g, updated.x, updated.y) then SetCell(g, updated) else g
  }

  /** The cells of the positions in `done` carry their recomputed counts; the others
      are as in f. */
  ghost predicate RecountedAt(f: Field, g: Field, done: seq<(int, int)>)
  {
    && Valid(f) && Valid(g) && SameShape(f, g)
    && forall a, b {:trigger GetCell(g, a, b)} :: InRange(f, a, b) ==>
         GetCell(g, a, b) == (if (a, b) in done then Recounted(f, a, b) else GetCell(f, a, b))
  }

  /** Recounting the cell of a position inside the field assigns it its recomputed
      count; recounting it again changes nothing, since counts are read off mines
      alone. */
  lemma RecountStored(f: Field, g: Field, done: seq<(int, int)>, x: int, y: int)
    requires RecountedAt(f, g, done) && InRange(g, x, y)
    ensures SetAdjacentMines(GetCell(g, x, y), DiagonalMine(g, x, y)) == Recounted(f, x, y)
  {
    var count := DiagonalMine(f, x, y);
    assert DiagonalMine(g, x, y) == count;
    assert GetCell(g, x, y) == (if (x, y) in done then Recounted(f, x, y) else GetCell(f, x, y));
    if (x, y) in done {
      SetAdjacentMinesTwice(GetCell(f, x, y), count);
    }
  }

  /** Recounting a stored cell moves it into the recounted part. */
  lemma RecountStepInside(f: Field, g: Field, done: seq<(int, int)>, p: (int, int))
    requires RecountedAt(f, g, done) && InRange(g, p.0, p.1)
    ensures RecountedAt(f, SetCell(g, Recounted(f, p.0, p.1)), done + [p])
  {
    var g' := SetCell(g, Recounted(f, p.0, p.1));
    forall a, b | InRange(f, a, b)
      ensures GetCell(g', a, b) == (if (a, b) in done + [p] then Recounted(f, a, b) else GetCell(f, a, b))
    {
      if (a, b) != p {
        assert ((a, b) in done + [p]) == ((a, b) in done);
      }
    }
  }

  /** A position outside the field changes nothing, and nothing needs changing. */
  lemma RecountStepOutside(f: Field, g: Field, done: seq<(int, int)>, p: (int, int))
    requires RecountedAt(f, g, done) && !InRange(g, p.0, p.1)
    ensures RecountedAt(f, g, done + [p])
  {
    forall a, b | InRange(f, a, b)
      ensures ((a, b) in done + [p]) == ((a, b) in done)
    {
    }
  }

  /** Recounting a cell moves it into the recounted part. */
  lemma RecountStep(f: Field, g: Field, done: seq<(int, int)>, p: (int, int))
    requires RecountedAt(f, g, done)
    ensures RecountedAt(f, RecountCell(g, p.0, p.1), done + [p])
  {
    if InRange(g, p.0, p.1) {
      RecountStored(f, g, done, p.0, p.1);
      RecountStepInside(f, g, done, p);
    } else {
      RecountStepOutside(f, g, done, p);
    }
  }

  /** `calculateAdjacent`: for each cell the iterator yields, count the mines among
      its adjacent cells and assign the count through the guarded setter. Writes to
      the fresh cells the iterator yields for row 0 and column 0 are lost, and the
      cells the iterator never reaches (the last row, the last column) keep their
      counts. Nothing but adjacent counts changes. */
  method CalculateAdjacent(f: Field) returns (g: Field)
    requires Valid(f)
    ensures Valid(g) && SameShape(f, g)
    ensures forall a, b {:trigger GetCell(g, a, b)} :: InRange(f, a, b) && VisitsStored(f.sizeX, a, b) ==>
              GetCell(g, a, b) == GetCell(f, a, b).(adjacentMines :=
                if GetCell(f, a, b).isMine then -1
                else if InRange(f, a + 1, b + 1) && GetCell(f, a + 1, b + 1).isMine then 1
                else 0)
    ensures forall a, b :: InRange(f, a, b) && !VisitsStored(f.sizeX, a, b) ==> GetCell(g, a, b) == GetCell(f, a, b)
  {
    var ps := Positions(f.sizeX);
    g := f;
    var t := 0;
    while t < |ps|
      invariant 0 <= t <= |ps|
      invariant RecountedAt(f, g, ps[..t])
    {
      RecountStep(f, g, ps[..t], ps[t]);
      var cell := GetCell(g, ps[t].0, ps[t].1);
      var adj := AdjacentCells(g, cell.x, cell.y);
      CountsFirst(adj);
      var neighbours := CountMines(adj);
      var updated := SetAdjacentMines(cell, neighbours);
      if InRange(g, updated.x, updated.y) {
        g := SetCell(g, updated);
      }
      assert ps[..t + 1] == ps[..t] + [ps[t]];
      t := t + 1;
    }
    assert ps[..t] == ps;
    PositionsShape(f.sizeX);
  }
}
