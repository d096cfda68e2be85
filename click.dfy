/**
 * The mouse listener's mapping from a click at pixel (x, y) on the board
 * panel to the cell it toggles. Java's `/` on int truncates toward zero,
 * which Dafny's Euclidean `/` does not, so the division is written out.
 */
module Click {
  import opened Life

  datatype Option<T> = None | Some(value: T)

  /** The side of a square cell in pixels, and the board panel's size. */
  const CellSize: int := 15
  const GridWidth: int := Cols * CellSize
  const GridHeight: int := Rows * CellSize

  /** Java's `a / b` for int operands and b > 0: the quotient rounded toward zero. */
  function JavaDiv(a: int, b: int): (q: int)
    requires b > 0
    ensures a >= 0 ==> q * b <= a < q * b + b
    ensures a < 0 ==> q * b - b < a <= q * b
  {
    if a >= 0 then a / b else -((-a) / b)
  }

  /** The cell a click at (x, y) toggles, if it toggles one: row from y, column from x, then the bounds guard. */
  function ClickTarget(x: int, y: int): (t: Option<(int, int)>)
    ensures t.Some? ==> InBounds(t.value.0, t.value.1)
  {
    var row := JavaDiv(y, CellSize);
    var col := JavaDiv(x, CellSize);
    if row >= 0 && row < Rows && col >= 0 && col < Cols then Some((row, col)) else None
  }

  /** A click inside the panel toggles the cell whose square holds the clicked pixel. */
  lemma ClickInsidePanel(x: int, y: int)
    requires 0 <= x < GridWidth && 0 <= y < GridHeight
    ensures ClickTarget(x, y).Some?
    ensures var (row, col) := ClickTarget(x, y).value;
      row * CellSize <= y < (row + 1) * CellSize && col * CellSize <= x < (col + 1) * CellSize
  {
  }

  /**
   * Exactly the clicks with -CellSize < x < GridWidth and -CellSize < y < GridHeight
   * reach a cell: because of truncation a pixel just left of or above the panel
   * still lands in column 0 or row 0.
   */
  lemma ClickTargetExactly(x: int, y: int)
    ensures ClickTarget(x, y).Some? <==> -CellSize < x < GridWidth && -CellSize < y < GridHeight
    ensures -CellSize < x < 0 && 0 <= y < GridHeight ==> ClickTarget(x, y).Some? && ClickTarget(x, y).value.1 == 0
  {
  }
}
