/**
 * The cellular-automaton engine of Conway's Game of Life, as values:
 * a fixed Rows x Cols board of booleans (true = alive), the bounded
 * 8-neighbour count, the B3/S23 rule and the next generation computed
 * from an unmodified snapshot of the current one.
 */
module Life {

  const Rows: int := 30
  const Cols: int := 40

  /** A board as rows of cells; IsGrid says it has the fixed shape. */
  type Grid = seq<seq<bool>>

  predicate InBounds(r: int, c: int) {
    0 <= r < Rows && 0 <= c < Cols
  }

  predicate IsGrid(g: Grid) {
    |g| == Rows && forall r :: 0 <= r < Rows ==> |g[r]| == Cols
  }

  /** A cell outside the board reads as dead: this is the only way the count looks at cells. */
  predicate Alive(g: Grid, r: int, c: int)
    requires IsGrid(g)
  {
    InBounds(r, c) && g[r][c]
  }

  /** The board whose live cells are exactly the in-bounds members of `cells`. */
  function Pattern(cells: set<(int, int)>): (g: Grid)
    ensures IsGrid(g)
    ensures forall r, c :: InBounds(r, c) ==> (g[r][c] <==> (r, c) in cells)
  {
    seq(Rows, r => seq(Cols, c => (r, c) in cells))
  }

  /** The board the engine starts from and returns to on clear: every cell dead. */
  function Dead(): (g: Grid)
    ensures IsGrid(g)
    ensures forall r, c :: InBounds(r, c) ==> !g[r][c]
  {
    Pattern({})
  }

  /** The board with every cell alive; counting on it gives the number of candidate neighbours. */
  function Full(): (g: Grid)
    ensures IsGrid(g)
    ensures forall r, c :: InBounds(r, c) ==> g[r][c]
  {
    seq(Rows, r => seq(Cols, c => true))
  }

  // ---------------------------------------------------------------------
  // Neighbour counting
  // ---------------------------------------------------------------------

  /** The offsets of the eight surrounding cells, diagonals included, the cell itself excluded. */
  const Offsets: seq<(int, int)> :=
    [(-1, -1), (-1, 0), (-1, 1), (0, -1), (0, 1), (1, -1), (1, 0), (1, 1)]

  /** Whether (i, j) is one of the eight cells around (r, c); it may lie off the board. */
  predicate Adjacent(r: int, c: int, i: int, j: int) {
    (i, j) != (r, c) && r - 1 <= i <= r + 1 && c - 1 <= j <= c + 1
  }

  /** The number of live cells at (r, c) + d over the offsets d, the last offset counted last. */
  function CountAlive(g: Grid, r: int, c: int, offsets: seq<(int, int)>): (n: nat)
    requires IsGrid(g)
    ensures n <= |offsets|
  {
    if offsets == [] then 0
    else
      var d := offsets[|offsets| - 1];
      CountAlive(g, r, c, offsets[..|offsets| - 1]) + (if Alive(g, r + d.0, c + d.1) then 1 else 0)
  }

  /** countNeighbors: the live cells among the eight around (r, c) that lie on the board. */
  function NeighborCount(g: Grid, r: int, c: int): (n: nat)
    requires IsGrid(g)
    ensures n <= 8
  {
    CountAlive(g, r, c, Offsets)
  }

  /** The number of cells around (r, c) that lie on the board: 8 inside, 5 on an edge, 3 in a corner. */
  function Candidates(r: int, c: int): nat {
    NeighborCount(Full(), r, c)
  }

  /** How many of x - 1, x, x + 1 lie in [0, n). */
  function Span(x: int, n: int): int {
    (if 0 <= x - 1 < n then 1 else 0) + (if 0 <= x < n then 1 else 0) + (if 0 <= x + 1 < n then 1 else 0)
  }

  /** Whether g and h agree on every on-board cell around (r, c). */
  ghost predicate AgreeAround(g: Grid, h: Grid, r: int, c: int)
    requires IsGrid(g) && IsGrid(h)
  {
    forall i, j :: InBounds(i, j) && Adjacent(r, c, i, j) ==> g[i][j] == h[i][j]
  }

  lemma {:induction false} CountAliveLocal(g: Grid, h: Grid, r: int, c: int, offsets: seq<(int, int)>)
    requires IsGrid(g) && IsGrid(h) && AgreeAround(g, h, r, c)
    requires forall k :: 0 <= k < |offsets| ==> Adjacent(r, c, r + offsets[k].0, c + offsets[k].1)
    ensures CountAlive(g, r, c, offsets) == CountAlive(h, r, c, offsets)
  {
    if offsets != [] {
      var k := |offsets| - 1;
      assert Adjacent(r, c, r + offsets[k].0, c + offsets[k].1);
      CountAliveLocal(g, h, r, c, offsets[..k]);
    }
  }

  /**
   * The count looks at the eight surrounding cells and nothing else: two boards
   * that agree on the on-board cells around (r, c) give the same count,
   * whatever (r, c) itself holds and whatever lies further away.
   */
  lemma NeighborCountLocal(g: Grid, h: Grid, r: int, c: int)
    requires IsGrid(g) && IsGrid(h) && AgreeAround(g, h, r, c)
    ensures NeighborCount(g, r, c) == NeighborCount(h, r, c)
  {
    CountAliveLocal(g, h, r, c, Offsets);
  }

  lemma {:induction false} CountAliveMonotone(g: Grid, h: Grid, r: int, c: int, offsets: seq<(int, int)>)
    requires IsGrid(g) && IsGrid(h)
    requires forall i, j :: InBounds(i, j) && g[i][j] ==> h[i][j]
    ensures CountAlive(g, r, c, offsets) <= CountAlive(h, r, c, offsets)
  {
    if offsets != [] {
      CountAliveMonotone(g, h, r, c, offsets[..|offsets| - 1]);
    }
  }

  /** A count never exceeds the number of on-board cells around (r, c). */
  lemma NeighborCountAtMostCandidates(g: Grid, r: int, c: int)
    requires IsGrid(g)
    ensures NeighborCount(g, r, c) <= Candidates(r, c)
  {
    CountAliveMonotone(g, Full(), r, c, Offsets);
  }

  lemma {:induction false} CountAliveDead(r: int, c: int, offsets: seq<(int, int)>)
    ensures CountAlive(Dead(), r, c, offsets) == 0
  {
    if offsets != [] {
      CountAliveDead(r, c, offsets[..|offsets| - 1]);
    }
  }

  /** On the empty board every cell has no live neighbour. */
  lemma NeighborCountDead(r: int, c: int)
    ensures NeighborCount(Dead(), r, c) == 0
  {
    CountAliveDead(r, c, Offsets);
  }

  /** 1 when the cell is alive and on the board, else 0. */
  function Bit(g: Grid, r: int, c: int): nat
    requires IsGrid(g)
  {
    if Alive(g, r, c) then 1 else 0
  }

  /**
   * The count is the sum, over the eight offsets written out one by one, of
   * the on-board live cells.
   */
  lemma NeighborCountExpanded(g: Grid, r: int, c: int)
    requires IsGrid(g)
    ensures NeighborCount(g, r, c) ==
      Bit(g, r - 1, c - 1) + Bit(g, r - 1, c) + Bit(g, r - 1, c + 1) +
      Bit(g, r, c - 1) + Bit(g, r, c + 1) +
      Bit(g, r + 1, c - 1) + Bit(g, r + 1, c) + Bit(g, r + 1, c + 1)
  {
    var o := Offsets;
    assert o[..1][..0] == [];
    assert CountAlive(g, r, c, o[..1]) == Bit(g, r - 1, c - 1);
    assert o[..2][..1] == o[..1];
    assert CountAlive(g, r, c, o[..2]) == CountAlive(g, r, c, o[..1]) + Bit(g, r - 1, c);
    assert o[..3][..2] == o[..2];
    assert CountAlive(g, r, c, o[..3]) == CountAlive(g, r, c, o[..2]) + Bit(g, r - 1, c + 1);
    assert o[..4][..3] == o[..3];
    assert CountAlive(g, r, c, o[..4]) == CountAlive(g, r, c, o[..3]) + Bit(g, r, c - 1);
    assert o[..5][..4] == o[..4];
    assert CountAlive(g, r, c, o[..5]) == CountAlive(g, r, c, o[..4]) + Bit(g, r, c + 1);
    assert o[..6][..5] == o[..5];
    assert CountAlive(g, r, c, o[..6]) == CountAlive(g, r, c, o[..5]) + Bit(g, r + 1, c - 1);
    assert o[..7][..6] == o[..6];
    assert CountAlive(g, r, c, o[..7]) == CountAlive(g, r, c, o[..6]) + Bit(g, r + 1, c);
    assert o[..8][..7] == o[..7];
    assert o[..8] == o;
  }

  /**
   * The candidates of an on-board cell are the cells of the (clipped) 3 x 3
   * block around it, less the cell itself: no wrap-around at the edges.
   */
  lemma CandidatesClipped(r: int, c: int)
    requires InBounds(r, c)
    ensures Candidates(r, c) == Span(r, Rows) * Span(c, Cols) - 1
    ensures 3 <= Candidates(r, c) <= 8
  {
    NeighborCountExpanded(Full(), r, c);
  }

  /** Every corner has exactly three candidate neighbours, every other edge cell five. */
  lemma EdgeCandidates(r: int, c: int)
    requires InBounds(r, c)
    ensures (r == 0 || r == Rows - 1) && (c == 0 || c == Cols - 1) ==> Candidates(r, c) == 3
    ensures (r == 0 || r == Rows - 1) != (c == 0 || c == Cols - 1) ==> Candidates(r, c) == 5
    ensures 0 < r < Rows - 1 && 0 < c < Cols - 1 ==> Candidates(r, c) == 8
  {
    CandidatesClipped(r, c);
  }

  // ---------------------------------------------------------------------
  // The rule and the next generation
  // ---------------------------------------------------------------------

  /** Conway's B3/S23 rule: the next state of a cell from its state and its live-neighbour count. */
  function Rule(alive: bool, n: int): (next: bool)
    ensures alive && (n == 2 || n == 3) ==> next
    ensures !alive && n == 3 ==> next
    ensures next ==> (alive && (n == 2 || n == 3)) || (!alive && n == 3)
  {
    n == 3 || (alive && n == 2)
  }

  /** nextGeneration: every cell of a fresh board is the rule applied to the unmodified old board. */
  function NextGen(g: Grid): (next: Grid)
    requires IsGrid(g)
    ensures IsGrid(next)
  {
    seq(Rows, r requires 0 <= r < Rows => seq(Cols, c requires 0 <= c < Cols => Rule(g[r][c], NeighborCount(g, r, c))))
  }

  /**
   * The three rules of the generation step, cell by cell: a live cell with two
   * or three live neighbours survives, a dead cell with exactly three is born,
   * and every other cell is dead afterwards.
   */
  lemma NextGenCell(g: Grid, r: int, c: int)
    requires IsGrid(g) && InBounds(r, c)
    ensures g[r][c] && (NeighborCount(g, r, c) == 2 || NeighborCount(g, r, c) == 3) ==> NextGen(g)[r][c]
    ensures !g[r][c] && NeighborCount(g, r, c) == 3 ==> NextGen(g)[r][c]
    ensures g[r][c] && (NeighborCount(g, r, c) < 2 || NeighborCount(g, r, c) > 3) ==> !NextGen(g)[r][c]
    ensures !g[r][c] && NeighborCount(g, r, c) != 3 ==> !NextGen(g)[r][c]
  {
  }

  /**
   * The next state of a cell depends only on the old board: on the cell and
   * its eight neighbours there, and so never on cells already updated.
   */
  lemma NextGenLocal(g: Grid, h: Grid, r: int, c: int)
    requires IsGrid(g) && IsGrid(h) && InBounds(r, c)
    requires g[r][c] == h[r][c] && AgreeAround(g, h, r, c)
    ensures NextGen(g)[r][c] == NextGen(h)[r][c]
  {
    NeighborCountLocal(g, h, r, c);
  }

  /** The empty board is a still life. */
  lemma NextGenDead()
    ensures NextGen(Dead()) == Dead()
  {
    var g := NextGen(Dead());
    forall r, c | InBounds(r, c)
      ensures !g[r][c]
    {
      NeighborCountDead(r, c);
    }
    assert forall r | 0 <= r < Rows :: g[r] == Dead()[r];
  }

  /** The period-2 oscillator "blinker", lying across and standing upright, away from the edges. */
  const BlinkerAcross: set<(int, int)> := {(10, 10), (10, 11), (10, 12)}
  const BlinkerUpright: set<(int, int)> := {(9, 11), (10, 11), (11, 11)}

  /** Whether (r, c) lies in the 5 x 5 box around the blinker's centre (10, 11). */
  predicate NearBlinker(r: int, c: int) {
    8 <= r <= 12 && 9 <= c <= 13
  }

  /** Far from the blinker both boards are dead and every cell stays dead. */
  lemma BlinkerFarCell(from: set<(int, int)>, r: int, c: int)
    requires from == BlinkerAcross || from == BlinkerUpright
    requires InBounds(r, c) && !NearBlinker(r, c)
    ensures !NextGen(Pattern(from))[r][c]
  {
    NeighborCountLocal(Pattern(from), Dead(), r, c);
    NeighborCountDead(r, c);
  }

  /** Membership in the two blinker phases, as arithmetic on the coordinates. */
  lemma BlinkerMembers()
    ensures forall i, j :: (i, j) in BlinkerAcross <==> i == 10 && 10 <= j <= 12
    ensures forall i, j :: (i, j) in BlinkerUpright <==> 9 <= i <= 11 && j == 11
  {
  }

  lemma BlinkerNearCell(from: set<(int, int)>, to: set<(int, int)>, r: int, c: int)
    requires (from, to) == (BlinkerAcross, BlinkerUpright) || (from, to) == (BlinkerUpright, BlinkerAcross)
    requires NearBlinker(r, c)
    ensures NextGen(Pattern(from))[r][c] == ((r, c) in to)
  {
    var g := Pattern(from);
    BlinkerMembers();
    assert forall i, j :: 7 <= i <= 13 && 8 <= j <= 14 ==>
      Bit(g, i, j) == if (from == BlinkerAcross && i == 10 && 10 <= j <= 12) ||
                         (from == BlinkerUpright && 9 <= i <= 11 && j == 11) then 1 else 0;
    NeighborCountExpanded(g, r, c);
  }

  lemma BlinkerStep(from: set<(int, int)>, to: set<(int, int)>)
    requires (from, to) == (BlinkerAcross, BlinkerUpright) || (from, to) == (BlinkerUpright, BlinkerAcross)
    ensures NextGen(Pattern(from)) == Pattern(to)
  {
    forall r, c | InBounds(r, c)
      ensures NextGen(Pattern(from))[r][c] == Pattern(to)[r][c]
    {
      if NearBlinker(r, c) {
        BlinkerNearCell(from, to, r, c);
      } else {
        BlinkerFarCell(from, r, c);
      }
    }
    GridExt(NextGen(Pattern(from)), Pattern(to));
  }

  /** One generation turns the blinker upright, the next lays it down again. */
  lemma BlinkerOscillates()
    ensures NextGen(Pattern(BlinkerAcross)) == Pattern(BlinkerUpright)
    ensures NextGen(NextGen(Pattern(BlinkerAcross))) == Pattern(BlinkerAcross)
  {
    BlinkerStep(BlinkerAcross, BlinkerUpright);
    BlinkerStep(BlinkerUpright, BlinkerAcross);
  }

  // ---------------------------------------------------------------------
  // Editing single cells
  // ---------------------------------------------------------------------

  /** The board with cell (r, c) set to v. */
  function Updated(g: Grid, r: int, c: int, v: bool): (h: Grid)
    requires IsGrid(g) && InBounds(r, c)
    ensures IsGrid(h)
    ensures h[r][c] == v
    ensures forall i, j :: InBounds(i, j) && (i, j) != (r, c) ==> h[i][j] == g[i][j]
  {
    g[r := g[r][c := v]]
  }

  /** toggleCell on a board: the cell (r, c) flipped, every other cell as it was. */
  function Toggled(g: Grid, r: int, c: int): (h: Grid)
    requires IsGrid(g) && InBounds(r, c)
    ensures IsGrid(h)
    ensures h[r][c] == !g[r][c]
    ensures forall i, j :: InBounds(i, j) && (i, j) != (r, c) ==> h[i][j] == g[i][j]
  {
    Updated(g, r, c, !g[r][c])
  }

  /** Two boards with the same shape and the same cells are equal. */
  lemma GridExt(g: Grid, h: Grid)
    requires IsGrid(g) && IsGrid(h)
    requires forall i, j :: InBounds(i, j) ==> g[i][j] == h[i][j]
    ensures g == h
  {
    forall i | 0 <= i < Rows
      ensures g[i] == h[i]
    {
      assert forall j | 0 <= j < Cols :: g[i][j] == h[i][j];
    }
  }

  /** Toggling the same cell twice restores the board. */
  lemma ToggleTwice(g: Grid, r: int, c: int)
    requires IsGrid(g) && InBounds(r, c)
    ensures Toggled(Toggled(g, r, c), r, c) == g
  {
    GridExt(Toggled(Toggled(g, r, c), r, c), g);
  }

  /** Toggling a cell never changes that cell's own neighbour count. */
  lemma ToggleKeepsOwnCount(g: Grid, r: int, c: int)
    requires IsGrid(g) && InBounds(r, c)
    ensures NeighborCount(Toggled(g, r, c), r, c) == NeighborCount(g, r, c)
  {
    NeighborCountLocal(Toggled(g, r, c), g, r, c);
  }

  /** Changing a cell that is not adjacent to (r, c) leaves the count of (r, c) unchanged. */
  lemma UpdateFarKeepsCount(g: Grid, r: int, c: int, i: int, j: int, v: bool)
    requires IsGrid(g) && InBounds(i, j) && !Adjacent(r, c, i, j)
    ensures NeighborCount(Updated(g, i, j, v), r, c) == NeighborCount(g, r, c)
  {
    NeighborCountLocal(Updated(g, i, j, v), g, r, c);
  }
}
