/** One square of the playfield: its coordinates, its mine, and the player-visible
    state (revealed, marked, adjacent-mine count), with the two guarded setters and
    the glyph chosen when the square is printed. */
module Cells {

  /** A square. `x` is the column and `y` the row; cells stored in a field carry
      1-based coordinates, the fresh cells handed out for positions outside the
      field carry whatever coordinates were asked for. `adjacentMines` is -1 for a
      mine once the setter has run. */
  datatype Cell = Cell(x: int, y: int, isMine: bool, isVisible: bool, isMarked: bool, adjacentMines: int)

  /** The cell built by the constructor `Cell(x, y, isMine)`: hidden, unmarked,
      with the field initialiser's adjacent count 0. */
  function NewCell(x: int, y: int, isMine: bool): Cell
  {
    Cell(x, y, isMine, false, false, 0)
  }

  /** Assigning `isMarked`: a visible cell is forced unmarked, whatever is assigned. */
  function SetMarked(c: Cell, value: bool): (r: Cell)
    ensures c.isVisible ==> !r.isMarked
    ensures !c.isVisible ==> r.isMarked == value
    ensures r.(isMarked := c.isMarked) == c
  {
    c.(isMarked := if c.isVisible then false else value)
  }

  /** `changeMark`: assigns the negated mark through the guarded setter. */
  function ChangeMark(c: Cell): (r: Cell)
    ensures c.isVisible ==> !r.isMarked
    ensures !c.isVisible ==> r.isMarked != c.isMarked
    ensures r.(isMarked := c.isMarked) == c
  {
    SetMarked(c, !c.isMarked)
  }

  /** Toggling a hidden cell twice gives back the cell it started from. */
  lemma ChangeMarkTwice(c: Cell)
    requires !c.isVisible
    ensures ChangeMark(ChangeMark(c)) == c
  {
  }

  /** Assigning `adjacentMines`: a mine stores the sentinel -1, a free cell stores the
      value when it is a possible neighbour count and 0 otherwise. */
  function SetAdjacentMines(c: Cell, value: int): (r: Cell)
    ensures c.isMine ==> r.adjacentMines == -1
    ensures !c.isMine ==> 0 <= r.adjacentMines <= 8
    ensures !c.isMine && 0 <= value <= 8 ==> r.adjacentMines == value
    ensures !c.isMine && !(0 <= value <= 8) ==> r.adjacentMines == 0
    ensures r.(adjacentMines := c.adjacentMines) == c
  {
    c.(adjacentMines := if c.isMine then -1 else if 0 <= value <= 8 then value else 0)
  }

  /** Assigning the same count twice is assigning it once. */
  lemma SetAdjacentMinesTwice(c: Cell, value: int)
    ensures SetAdjacentMines(SetAdjacentMines(c, value), value) == SetAdjacentMines(c, value)
  {
  }

  /** The character of one decimal digit. */
  function DigitChar(d: int): char
    requires 0 <= d <= 9
  {
    ('0' as int + d) as char
  }

  predicate IsDigit(ch: char)
  {
    '0' <= ch <= '9'
  }

  /** The decimal text of a natural number, as an `Int` prints. */
  function Decimal(n: nat): (s: string)
    ensures |s| >= 1
    ensures (|s| == 1) == (n < 10)
    ensures forall i :: 0 <= i < |s| ==> IsDigit(s[i])
    decreases n
  {
    if n < 10 then [DigitChar(n)] else Decimal(n / 10) + [DigitChar(n % 10)]
  }

  /** The number a string of decimal digits denotes, most significant digit first. */
  function DigitsValue(s: string): nat
    requires forall i :: 0 <= i < |s| ==> IsDigit(s[i])
  {
    if |s| == 0 then 0
    else
      assert IsDigit(s[|s| - 1]);
      10 * DigitsValue(s[..|s| - 1]) + (s[|s| - 1] as int - '0' as int)
  }

  /** Reading the printed count back gives the count. */
  lemma {:induction false} DecimalRoundTrip(n: nat)
    ensures DigitsValue(Decimal(n)) == n
    decreases n
  {
    if n >= 10 {
      var s := Decimal(n);
      DecimalRoundTrip(n / 10);
      assert s[..|s| - 1] == Decimal(n / 10);
    }
  }

  /** The text a cell prints: the marked glyph first, then mine, count, empty, hidden. */
  function Glyph(c: Cell, showHidden: bool): (g: string)
    ensures c.isMarked && !c.isVisible ==> g == "*"
    ensures !showHidden && !c.isVisible && !c.isMarked ==> g == "."
    ensures c.isVisible && c.isMine ==> g == "X"
    ensures c.isVisible && !c.isMine && c.adjacentMines > 0 ==> g == Decimal(c.adjacentMines)
    ensures c.isVisible && !c.isMine && c.adjacentMines == 0 ==> g == "/"
    ensures c.isVisible && !c.isMine && c.adjacentMines < 0 ==> g == "."
    ensures showHidden && !c.isVisible && !c.isMarked ==>
              g == (if c.isMine then "X" else if c.adjacentMines > 0 then Decimal(c.adjacentMines) else ".")
  {
    if c.isMarked && !c.isVisible then "*"
    else if c.isMine && (showHidden || c.isVisible) then "X"
    else if c.adjacentMines > 0 && (showHidden || c.isVisible) then Decimal(c.adjacentMines)
    else if c.isVisible && c.adjacentMines == 0 then "/"
    else "."
  }

  /** A count the setter can store prints as its single digit. */
  lemma GlyphOfCount(c: Cell, showHidden: bool)
    requires c.isVisible && !c.isMine && 1 <= c.adjacentMines <= 8
    ensures Glyph(c, showHidden) == [DigitChar(c.adjacentMines)]
  {
  }
}
