/** The worksheet the scripts read, as an in-memory grid.

    A cell is blank, a number or a piece of text. Row 1 holds the headers;
    rows and columns are numbered from 1, as in the spreadsheet. Reading a
    cell outside the grid gives a blank cell, as reading an unused cell of a
    worksheet does. */
module Sheet {

  datatype Option<T> = None | Some(value: T)

  datatype Cell = Blank | Num(x: real) | Text(s: string)

  /** Row r of the sheet is g[r - 1]; rows may differ in length. */
  type Grid = seq<seq<Cell>>

  /** The number of the last row (the header row counts). */
  function MaxRow(g: Grid): nat
  {
    |g|
  }

  /** The number of the last column: the width of the widest row. */
  function MaxColumn(g: Grid): (w: nat)
    ensures forall r :: 0 <= r < |g| ==> |g[r]| <= w
    ensures g == [] ==> w == 0
    ensures g != [] ==> exists r :: 0 <= r < |g| && |g[r]| == w
  {
    if g == [] then 0
    else
      var rest := MaxColumn(g[1..]);
      assert forall r :: 1 <= r < |g| ==> g[r] == g[1..][r - 1];
      if |g[0]| >= rest then |g[0]| else rest
  }

  /** The value of the cell at (row, col), blank outside the grid. */
  function CellAt(g: Grid, row: int, col: int): Cell
  {
    if 1 <= row <= |g| && 1 <= col <= |g[row - 1]| then g[row - 1][col - 1] else Blank
  }

  /** The header of a column: its row-1 cell. */
  function Header(g: Grid, col: int): Cell
  {
    CellAt(g, 1, col)
  }

  /** A header is protected when it is text listed among the protected headers;
      a blank or numeric header is never equal to a listed string. */
  predicate IsProtected(header: Cell, protected: set<string>)
  {
    header.Text? && header.s in protected
  }

  /** The header row as the sheet holds it, one cell per column. */
  function HeaderRow(g: Grid): (h: seq<Cell>)
    ensures |h| == MaxColumn(g)
    ensures forall c :: 1 <= c <= MaxColumn(g) ==> h[c - 1] == Header(g, c)
  {
    seq(MaxColumn(g), i => Header(g, i + 1))
  }
}
