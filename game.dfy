/**
 * The game's state and its run/edit state machine: the board held in a
 * Rows x Cols array that the operations fill, toggle and replace, the
 * running flag, the generation counter (a Java int) and the step delay.
 */
module Game {
  import opened Life
  import opened Click

  const IntMin: int := -0x8000_0000
  const IntMax: int := 0x7fff_ffff

  /** The slider's range for the delay between generations, in milliseconds, and its initial value. */
  const MinSpeed: int := 50
  const MaxSpeed: int := 1000
  const DefaultSpeed: int := 200

  predicate IsInt(x: int) {
    IntMin <= x <= IntMax
  }

  /** Java's `x + 1` on int: one more, wrapping from the largest int to the smallest. */
  function Succ(x: int): (y: int)
    requires IsInt(x)
    ensures IsInt(y)
    ensures y - x == 1 || (x == IntMax && y == IntMin)
  {
    if x == IntMax then IntMin else x + 1
  }

  /** The generation counter after k steps from `from`. */
  function Steps(from: int, k: nat): (g: int)
    requires IsInt(from)
    ensures IsInt(g)
  {
    if k == 0 then from else Succ(Steps(from, k - 1))
  }

  /** From a reset counter, the counter after k steps is k as long as k fits a Java int. */
  lemma {:induction false} StepsCount(k: nat)
    requires k <= IntMax
    ensures Steps(0, k) == k
  {
    if k > 0 {
      StepsCount(k - 1);
    }
  }

  class GameOfLife {
    var grid: array2<bool>
    var running: bool
    var generation: int
    var speed: int

    ghost predicate Valid()
      reads this
    {
      grid.Length0 == Rows && grid.Length1 == Cols && IsInt(generation)
    }

    /** The delay lies in the slider's range; the initial delay does, and every slider value keeps it so. */
    predicate SpeedInRange()
      reads this
    {
      MinSpeed <= speed <= MaxSpeed
    }

    /** The board the array holds. */
    ghost function Cells(): (g: Grid)
      requires Valid()
      reads this, grid
      ensures IsGrid(g)
      ensures forall r, c :: InBounds(r, c) ==> g[r][c] == grid[r, c]
    {
      var a := grid;
      seq(Rows, r requires 0 <= r < Rows reads a => seq(Cols, c requires 0 <= c < Cols reads a => a[r, c]))
    }

    /** The constructor: a dead board, not running, generation 0, the slider's initial delay. */
    constructor ()
      ensures Valid() && fresh(grid)
      ensures Cells() == Dead()
      ensures !running && generation == 0 && speed == DefaultSpeed
      ensures SpeedInRange()
    {
      grid := new bool[Rows, Cols]((r, c) => false);
      running := false;
      generation := 0;
      speed := DefaultSpeed;
      new;
      GridExt(Cells(), Dead());
    }

    /** initGrid: a fresh Rows x Cols array, every cell dead. */
    method InitGrid()
      requires Valid()
      modifies this
      ensures Valid() && fresh(grid)
      ensures Cells() == Dead()
      ensures running == old(running) && generation == old(generation) && speed == old(speed)
    {
      grid := new bool[Rows, Cols]((r, c) => false);
      GridExt(Cells(), Dead());
    }

    /** countNeighbors: visits the eight offsets, skipping those that fall off the board. */
    method CountNeighbors(row: int, col: int) returns (n: nat)
      requires Valid()
      ensures n == NeighborCount(Cells(), row, col)
    {
      n := 0;
      for k := 0 to |Offsets|
        invariant n == CountAlive(Cells(), row, col, Offsets[..k])
      {
        var i, j := row + Offsets[k].0, col + Offsets[k].1;
        if 0 <= i < Rows && 0 <= j < Cols && grid[i, j] {
          n := n + 1;
        }
        assert Offsets[..k + 1][..k] == Offsets[..k];
      }
      assert Offsets[..|Offsets|] == Offsets;
    }

    /**
     * nextGeneration: fills a new array from the current one, which it never
     * writes, then installs it and counts the generation.
     */
    method NextGeneration()
      requires Valid()
      modifies this
      ensures Valid() && fresh(grid)
      ensures Cells() == NextGen(old(Cells()))
      ensures forall r, c :: InBounds(r, c) ==> old(grid)[r, c] == old(grid[r, c])
      ensures generation == Succ(old(generation))
      ensures running == old(running) && speed == old(speed)
    {
      ghost var current := Cells();
      var next := new bool[Rows, Cols];
      for r := 0 to Rows
        modifies next
        invariant Valid() && Cells() == current
        invariant forall i, j :: 0 <= i < r && 0 <= j < Cols ==> next[i, j] == NextGen(current)[i][j]
      {
        for c := 0 to Cols
          modifies next
          invariant Valid() && Cells() == current
          invariant forall i, j :: 0 <= i < r && 0 <= j < Cols ==> next[i, j] == NextGen(current)[i][j]
          invariant forall j :: 0 <= j < c ==> next[r, j] == NextGen(current)[r][j]
        {
          var n := CountNeighbors(r, c);
          next[r, c] := Rule(grid[r, c], n);
        }
      }
      grid := next;
      generation := Succ(generation);
      GridExt(Cells(), NextGen(current));
    }

    /** toggleCell: while not running, flips the cell at (row, col) if it is on the board. */
    method ToggleCell(row: int, col: int)
      requires Valid()
      modifies grid
      ensures Valid()
      ensures Cells() == if !running && InBounds(row, col) then Toggled(old(Cells()), row, col) else old(Cells())
    {
      if !running && 0 <= row < Rows && 0 <= col < Cols {
        grid[row, col] := !grid[row, col];
        GridExt(Cells(), Toggled(old(Cells()), row, col));
      }
    }

    /** The mouse listener: while not running, a click on a board cell toggles it. */
    method MouseClicked(x: int, y: int)
      requires Valid()
      modifies grid
      ensures Valid()
      ensures Cells() ==
        if !running && ClickTarget(x, y).Some?
        then Toggled(old(Cells()), ClickTarget(x, y).value.0, ClickTarget(x, y).value.1)
        else old(Cells())
    {
      if !running {
        var col := JavaDiv(x, CellSize);
        var row := JavaDiv(y, CellSize);
        if row >= 0 && row < Rows && col >= 0 && col < Cols {
          ToggleCell(row, col);
        }
      }
    }

    /** start: the simulation runs; the board and the counters are untouched. */
    method Start()
      requires Valid()
      modifies this
      ensures Valid() && running
      ensures grid == old(grid) && generation == old(generation) && speed == old(speed)
    {
      running := true;
    }

    /** stop: the simulation pauses; the board and the counters are untouched. */
    method Stop()
      requires Valid()
      modifies this
      ensures Valid() && !running
      ensures grid == old(grid) && generation == old(generation) && speed == old(speed)
    {
      running := false;
    }

    /** clear: while not running, kills every cell in place and resets the generation. */
    method Clear()
      requires Valid()
      modifies this, grid
      ensures Valid() && grid == old(grid)
      ensures Cells() == if old(running) then old(Cells()) else Dead()
      ensures generation == if old(running) then old(generation) else 0
      ensures running == old(running) && speed == old(speed)
    {
      if !running {
        for r := 0 to Rows
          modifies grid
          invariant forall i, j :: 0 <= i < r && 0 <= j < Cols ==> !grid[i, j]
        {
          for c := 0 to Cols
            modifies grid
            invariant forall i, j :: 0 <= i < r && 0 <= j < Cols ==> !grid[i, j]
            invariant forall j :: 0 <= j < c ==> !grid[r, j]
          {
            grid[r, c] := false;
          }
        }
        generation := 0;
        GridExt(Cells(), Dead());
      }
    }

    /**
     * randomize: while not running, sets every cell in place to the random
     * draw `pick` makes for it and resets the generation.
     */
    method Randomize(pick: (int, int) -> bool)
      requires Valid()
      modifies this, grid
      ensures Valid() && grid == old(grid)
      ensures Cells() == if old(running) then old(Cells()) else seq(Rows, r => seq(Cols, c => pick(r, c)))
      ensures generation == if old(running) then old(generation) else 0
      ensures running == old(running) && speed == old(speed)
    {
      if !running {
        for r := 0 to Rows
          modifies grid
          invariant forall i, j :: 0 <= i < r && 0 <= j < Cols ==> grid[i, j] == pick(i, j)
        {
          for c := 0 to Cols
            modifies grid
            invariant forall i, j :: 0 <= i < r && 0 <= j < Cols ==> grid[i, j] == pick(i, j)
            invariant forall j :: 0 <= j < c ==> grid[r, j] == pick(r, j)
          {
            grid[r, c] := pick(r, c);
          }
        }
        generation := 0;
        GridExt(Cells(), seq(Rows, r => seq(Cols, c => pick(r, c))));
      }
    }

    /** updateSpeed: the new delay is the given value; a value from the slider keeps SpeedInRange. */
    method UpdateSpeed(value: int)
      requires Valid()
      modifies this
      ensures Valid()
      ensures speed == value
      ensures MinSpeed <= value <= MaxSpeed ==> SpeedInRange()
      ensures grid == old(grid) && running == old(running) && generation == old(generation)
    {
      speed := value;
    }

    /** A tick of the timer, which fires only between start and stop: one generation. */
    method TimerTick()
      requires Valid()
      modifies this
      ensures Valid()
      ensures old(running) ==> fresh(grid) && Cells() == NextGen(old(Cells())) && generation == Succ(old(generation))
      ensures !old(running) ==> grid == old(grid) && generation == old(generation)
      ensures running == old(running) && speed == old(speed)
    {
      if running {
        NextGeneration();
      }
    }
  }

  /** A session: while running, clicks, toggles, clear and randomize leave the board and the counter alone. */
  method EditsRefusedWhileRunning(game: GameOfLife)
    requires game.Valid()
    modifies game, game.grid
  {
    game.Start();
    ghost var board, gen := game.Cells(), game.generation;
    game.ToggleCell(3, 4);
    assert game.Cells() == board;
    game.MouseClicked(100, 100);
    assert game.Cells() == board;
    game.Clear();
    game.Randomize((r, c) => true);
    assert game.Cells() == board && game.generation == gen;
  }

  /** A session: after stop the board is editable again, and a second toggle undoes the first. */
  method EditableAfterStop(game: GameOfLife)
    requires game.Valid()
    modifies game, game.grid
  {
    game.Stop();
    ghost var board := game.Cells();
    game.ToggleCell(10, 11);
    assert game.Cells() == Toggled(board, 10, 11);
    game.MouseClicked(11 * CellSize + 7, 10 * CellSize + 3);
    ToggleTwice(board, 10, 11);
    assert game.Cells() == board;
  }
}
