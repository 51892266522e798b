/** The field's iterator: a position (x, y) that starts at (0, 0), moves along a row
    and wraps to the start of the next one, stops before reaching (size-1, size-1),
    and yields `getCell` of each position it stands on. The positions are 0-based
    while `getCell` is 1-based. */
module Iteration {
  import opened Cells
  import opened Fields

  /** `hasNext`. */
  predicate HasNext(n: int, x: int, y: int)
  {
    x != n - 1 || y != n - 1
  }

  /** The position `next` moves to. */
  function Advance(n: int, x: int, y: int): (int, int)
  {
    if x != n - 1 then (x + 1, y) else (0, y + 1)
  }

  /** Where a position sits in row-major order. */
  function Index(n: int, p: (int, int)): int
  {
    p.1 * n + p.0
  }

  /** The positions yielded from (x, y) on. */
  function Walk(n: int, x: int, y: int): seq<(int, int)>
    requires 0 <= x < n && 0 <= y < n
    decreases n - 1 - y, n - 1 - x
  {
    if !HasNext(n, x, y) then []
    else if x != n - 1 then [(x, y)] + Walk(n, x + 1, y)
    else [(x, y)] + Walk(n, 0, y + 1)
  }

  /** The positions of a whole iteration. */
  function Positions(n: int): seq<(int, int)>
    requires n >= 1
  {
    Walk(n, 0, 0)
  }

  /** The positions an iteration stands on: the whole square but its last corner. */
  predicate Visits(n: int, a: int, b: int)
  {
    0 <= a < n && 0 <= b < n && (a, b) != (n - 1, n - 1)
  }

  /** The stored cells an iteration hands out: positions with a 0 coordinate fall
      outside the 1-based field. */
  predicate VisitsStored(n: int, a: int, b: int)
  {
    Visits(n, a, b) && a >= 1 && b >= 1
  }

  /** `next` moves one step forward in row-major order, so the walk terminates. */
  lemma AdvanceStepsIndex(n: int, x: int, y: int)
    requires 0 <= x < n && 0 <= y < n && HasNext(n, x, y)
    ensures var p := Advance(n, x, y); 0 <= p.0 < n && 0 <= p.1 < n
    ensures Index(n, Advance(n, x, y)) == Index(n, (x, y)) + 1
  {
  }

  /** The t-th position of a walk sits t steps after its start in row-major order,
      and every position it yields lies in the square. */
  lemma {:induction false} WalkIndices(n: int, x: int, y: int)
    requires 0 <= x < n && 0 <= y < n
    ensures forall t :: 0 <= t < |Walk(n, x, y)| ==>
              var p := Walk(n, x, y)[t];
              0 <= p.0 < n && 0 <= p.1 < n && Index(n, p) == Index(n, (x, y)) + t
    decreases n - 1 - y, n - 1 - x
  {
    var w := Walk(n, x, y);
    if HasNext(n, x, y) {
      var (x', y') := Advance(n, x, y);
      AdvanceStepsIndex(n, x, y);
      WalkIndices(n, x', y');
      assert w == [(x, y)] + Walk(n, x', y');
      forall t | 0 < t < |w|
        ensures var p := w[t]; 0 <= p.0 < n && 0 <= p.1 < n && Index(n, p) == Index(n, (x, y)) + t
      {
        assert w[t] == Walk(n, x', y')[t - 1];
      }
    }
  }

  /** A walk from (x, y) yields every position of the square from (x, y) on, in
      row-major order, except the last corner; and nothing else. */
  lemma {:induction false} WalkMembers(n: int, x: int, y: int, a: int, b: int)
    requires 0 <= x < n && 0 <= y < n
    ensures (a, b) in Walk(n, x, y) <==> Visits(n, a, b) && (b > y || (b == y && a >= x))
    decreases n - 1 - y, n - 1 - x
  {
    if HasNext(n, x, y) {
      var (x', y') := Advance(n, x, y);
      WalkMembers(n, x', y', a, b);
    }
  }

  /** A walk from (x, y) has one element per position from (x, y) up to, not
      including, the last corner. */
  lemma {:induction false} WalkLength(n: int, x: int, y: int)
    requires 0 <= x < n && 0 <= y < n
    ensures |Walk(n, x, y)| == n * n - 1 - Index(n, (x, y))
    decreases n - 1 - y, n - 1 - x
  {
    if HasNext(n, x, y) {
      var (x', y') := Advance(n, x, y);
      AdvanceStepsIndex(n, x, y);
      WalkLength(n, x', y');
    } else {
      assert Index(n, (x, y)) == (n - 1) * n + (n - 1);
    }
  }

  /** A whole iteration: `sizeX * sizeY - 1` positions, starting at (0, 0) when there
      is any, each position visited once and in row-major order, the positions being
      exactly those `Visits` names. */
  lemma PositionsShape(n: int)
    requires n >= 1
    ensures |Positions(n)| == n * n - 1
    ensures n > 1 ==> Positions(n)[0] == (0, 0)
    ensures forall t :: 0 <= t < |Positions(n)| ==> Index(n, Positions(n)[t]) == t
    ensures forall s, t :: 0 <= s < t < |Positions(n)| ==> Index(n, Positions(n)[s]) < Index(n, Positions(n)[t])
    ensures forall a, b :: (a, b) in Positions(n) <==> Visits(n, a, b)
  {
    WalkLength(n, 0, 0);
    WalkIndices(n, 0, 0);
    forall a, b
      ensures (a, b) in Positions(n) <==> Visits(n, a, b)
    {
      WalkMembers(n, 0, 0, a, b);
    }
  }

  /** `getCell` of each position in turn. */
  function CellsAt(f: Field, ps: seq<(int, int)>): (cs: seq<Cell>)
    requires Valid(f)
    ensures |cs| == |ps|
    ensures forall t :: 0 <= t < |ps| ==> cs[t] == GetCell(f, ps[t].0, ps[t].1)
  {
    if ps == [] then [] else [GetCell(f, ps[0].0, ps[0].1)] + CellsAt(f, ps[1..])
  }

  /** The cells an iteration over the field yields. */
  function IterCells(f: Field): seq<Cell>
    requires Valid(f)
  {
    CellsAt(f, Positions(f.sizeX))
  }

  /** What an iteration yields: the stored cells of the positions with both
      coordinates at least 1, and a fresh free, hidden, unmarked cell for each
      position on row 0 or column 0; a 1-by-1 field yields nothing. */
  lemma IterCellsShape(f: Field)
    requires Valid(f)
    ensures |IterCells(f)| == Area(f) - 1
    ensures f.sizeX == 1 ==> IterCells(f) == []
    ensures f.sizeX > 1 ==> IterCells(f)[0] == NewCell(0, 0, false)
    ensures forall c :: c in IterCells(f) ==>
              (VisitsStored(f.sizeX, c.x, c.y) && c == GetCell(f, c.x, c.y))
              || (Visits(f.sizeX, c.x, c.y) && !VisitsStored(f.sizeX, c.x, c.y) && c == NewCell(c.x, c.y, false))
    ensures forall a, b :: VisitsStored(f.sizeX, a, b) ==> GetCell(f, a, b) in IterCells(f)
  {
    var n := f.sizeX;
    var ps := Positions(n);
    var cs := IterCells(f);
    PositionsShape(n);
    forall c | c in cs
      ensures (VisitsStored(n, c.x, c.y) && c == GetCell(f, c.x, c.y))
              || (Visits(n, c.x, c.y) && !VisitsStored(n, c.x, c.y) && c == NewCell(c.x, c.y, false))
    {
      var t :| 0 <= t < |cs| && cs[t] == c;
      assert ps[t] in ps;
    }
    forall a, b | VisitsStored(n, a, b)
      ensures GetCell(f, a, b) in cs
    {
      assert (a, b) in ps;
      var t :| 0 <= t < |ps| && ps[t] == (a, b);
      assert cs[t] == GetCell(f, a, b);
    }
  }
}
