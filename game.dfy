/**
 * The Minesweeper grid engine (Game.js): grid construction from a bomb
 * pattern, the bomb list, neighbour values, bounds-checked lookup and the
 * flood-fill reveal.
 */
module Games {
  import opened Cells
  import opened Grid

  /** Radius of the neighbourhood whose bombs a cell's value counts. */
  const CellRadius := 1

  /**
   * The steps `(dx, dy)` the flood fill takes from an expanding cell, in the
   * order they are pushed. `(0, 1)` appears twice and `(-1, 0)` is missing,
   * so the fill never steps directly west.
   */
  const FfNeighbourOffsets: seq<(int, int)> :=
    [(-1, 1), (0, 1), (1, 1), (1, 0), (1, -1), (0, -1), (-1, -1), (0, 1)]

  /** `(dx, dy)` leads from a cell to one of the eight cells around it. */
  predicate KingStep(dx: int, dy: int)
  {
    -1 <= dx <= 1 && -1 <= dy <= 1 && (dx, dy) != (0, 0)
  }

  /** The first position in the step table of a step to a neighbouring cell other than the west one. */
  function OffsetIndex(dx: int, dy: int): (k: int)
    requires KingStep(dx, dy) && (dx, dy) != (-1, 0)
    ensures 0 <= k < |FfNeighbourOffsets| && FfNeighbourOffsets[k] == (dx, dy)
  {
    if dy == 1 then dx + 1 else if dy == 0 then 3 else 5 - dx
  }

  /**
   * The step table holds the steps to seven of the eight neighbouring
   * cells: all but the west one, with the step south listed twice.
   */
  lemma OffsetsMissWest()
    ensures forall dx, dy :: (dx, dy) in FfNeighbourOffsets <==> KingStep(dx, dy) && (dx, dy) != (-1, 0)
    ensures FfNeighbourOffsets[1] == FfNeighbourOffsets[7] == (0, 1)
  {
    forall dx, dy | KingStep(dx, dy) && (dx, dy) != (-1, 0)
      ensures (dx, dy) in FfNeighbourOffsets
    {
      var k := OffsetIndex(dx, dy);
    }
  }

  /** Whether step `(ox, oy)` comes before step `(dx, dy)` in the value loop's row-by-row order. */
  predicate Before(ox: int, oy: int, dx: int, dy: int)
  {
    oy < dy || (oy == dy && ox < dx)
  }

  /** A cell from which the flood fill keeps expanding: not a bomb, and its value is the target. */
  predicate Expands(c: Cell, targetValue: int)
    reads c`rawValue
  {
    !c.IsBomb() && c.GetValue() == targetValue
  }

  /**
   * 1 when `c` lies around `bomb` and the value loop, now at step `(dx, dy)`,
   * has already passed `c`'s step from `bomb`; 0 otherwise.
   */
  function Contribution(c: Cell, bomb: Cell, dx: int, dy: int): nat
  {
    if Adjacent(bomb, c) && Before(c.X - bomb.X, c.Y - bomb.Y, dx, dy) then 1 else 0
  }

  /** Where the value loop's step order starts and ends, and how a finished row hands over to the next. */
  lemma ContributionBounds(c: Cell, bomb: Cell, dy: int)
    ensures Contribution(c, bomb, -CellRadius, -CellRadius) == 0
    ensures Contribution(c, bomb, -CellRadius, CellRadius + 1) == if Adjacent(bomb, c) then 1 else 0
    ensures Contribution(c, bomb, CellRadius + 1, dy) == Contribution(c, bomb, -CellRadius, dy + 1)
  {
  }

  /** The non-bomb cell `c` is the one that step `(dx, dy)` from `bomb` increments; the step `(0, 0)` increments nothing. */
  predicate Bumped(c: Cell, bomb: Cell, dx: int, dy: int)
  {
    !c.bomb && c.X == bomb.X + dx && c.Y == bomb.Y + dy && !(dx == 0 && dy == 0)
  }

  /** For a non-bomb cell, taking step `(dx, dy)` adds exactly the cell that step increments. */
  lemma ContributionStep(c: Cell, bomb: Cell, dx: int, dy: int)
    requires -CellRadius <= dx <= CellRadius && -CellRadius <= dy <= CellRadius
    requires !c.bomb
    ensures Contribution(c, bomb, dx + 1, dy) == Contribution(c, bomb, dx, dy) + if Bumped(c, bomb, dx, dy) then 1 else 0
  {
  }

  /** `prior` with entry `j` set to `v` for every cell `cs[j]` that occurs in `pushed` and is marked in `hidden`. */
  ghost function Adopt<T>(prior: seq<T>, cs: seq<Cell>, pushed: seq<Cell>, hidden: seq<bool>, v: T): (r: seq<T>)
    requires |cs| == |prior| == |hidden|
    ensures |r| == |prior|
    ensures forall j :: 0 <= j < |r| && cs[j] in pushed && hidden[j] ==> r[j] == v
    ensures forall j :: 0 <= j < |r| && !(cs[j] in pushed && hidden[j]) ==> r[j] == prior[j]
  {
    seq(|prior|, j requires 0 <= j < |prior| => if cs[j] in pushed && hidden[j] then v else prior[j])
  }

  class Game {
    const Cols: int
    const Rows: int
    /** The grid, row by row. */
    var cells: seq<Cell>
    /** The bomb cells, the same objects as in `cells`. */
    var bombs: seq<Cell>

    /**
     * The grid holds one cell per position in row-major order: the cell at
     * index `j` sits at the coordinates whose row-major index is `j` (so no
     * object appears twice), and `bombs` lists the bomb cells in that order.
     */
    ghost predicate Valid()
      reads this
    {
      Sized() &&
      (forall j :: 0 <= j < |cells| ==>
        0 <= cells[j].X < Cols && 0 <= cells[j].Y && Index(cells[j].X, cells[j].Y, Cols) == j) &&
      bombs == Bombs(cells)
    }

    /** The grid holds one cell per position. */
    ghost predicate Sized()
      reads this
    {
      |cells| == CellCount(Cols, Rows)
    }

    /**
     * Builds the grid and computes the values. `pattern[k]` stands for the
     * k-th draw of the random bomb test, in row-major order.
     */
    constructor (cols: int, rows: int, pattern: seq<bool>)
      requires |pattern| == CellCount(cols, rows)
      ensures Valid() && Cols == cols && Rows == rows
      ensures fresh(cells)
      ensures forall j :: 0 <= j < |cells| ==>
        cells[j].bomb == pattern[j] && cells[j].hidden && !cells[j].suspicious
      ensures forall j :: 0 <= j < |cells| ==>
        cells[j].GetValue() == if cells[j].bomb then 0 else NeighbourBombs(cells, cells[j])
    {
      Cols := cols;
      Rows := rows;
      cells := [];
      bombs := [];
      new;
      PopulateGrid(pattern);
      CalculateCellValues();
    }

    /** The state the grid construction gives every cell: hidden, not marked suspicious, value 0. */
    static ghost predicate Initial(c: Cell)
      reads c
    {
      c.hidden && !c.suspicious && c.rawValue == Some(0)
    }

    /**
     * Creates one hidden, unmarked cell of value 0 per position, row by row,
     * and lists the bomb cells.
     */
    method PopulateGrid(pattern: seq<bool>)
      requires |pattern| == CellCount(Cols, Rows)
      modifies this
      ensures Valid() && fresh(cells)
      ensures forall j :: 0 <= j < |cells| ==> cells[j].bomb == pattern[j] && Initial(cells[j])
    {
      var grid: seq<Cell> := [];
      var bombCells: seq<Cell> := [];
      var y := 0;
      while y < Rows
        invariant 0 <= y && (Rows > 0 ==> y <= Rows)
        invariant |grid| == CellCount(Cols, y) && |grid| <= |pattern|
        invariant RowMajor(grid, Cols) && bombCells == Bombs(grid)
        invariant forall j :: 0 <= j < |grid| ==> fresh(grid[j])
        invariant forall j :: 0 <= j < |grid| ==> grid[j].bomb == pattern[j] && Initial(grid[j])
      {
        ghost var before := grid;
        grid, bombCells := PushRow(pattern, y, grid, bombCells);
        assert forall j :: 0 <= j < |before| ==> grid[j] == before[j];
        y := y + 1;
      }
      assert y == Rows || Rows <= 0;
      RowMajorPlaced(grid, Cols);
      cells := grid;
      bombs := bombCells;
    }

    /**
     * One round of the grid construction's outer loop: pushes the cells of
     * row `y` onto `grid0` and the bomb cells among them onto `bombs0`.
     */
    method PushRow(pattern: seq<bool>, y: int, grid0: seq<Cell>, bombs0: seq<Cell>) returns (grid: seq<Cell>, bombCells: seq<Cell>)
      requires |pattern| == CellCount(Cols, Rows) && 0 <= y < Rows
      requires |grid0| == CellCount(Cols, y) && RowMajor(grid0, Cols) && bombs0 == Bombs(grid0)
      requires forall j :: 0 <= j < |grid0| ==> j < |pattern| && grid0[j].bomb == pattern[j] && Initial(grid0[j])
      ensures |grid| == CellCount(Cols, y + 1) && |grid| <= |pattern| && RowMajor(grid, Cols) && bombCells == Bombs(grid)
      ensures |grid0| <= |grid| && forall j :: 0 <= j < |grid0| ==> grid[j] == grid0[j]
      ensures forall j :: |grid0| <= j < |grid| ==> fresh(grid[j])
      ensures forall j :: 0 <= j < |grid| ==> grid[j].bomb == pattern[j] && Initial(grid[j])
    {
      var width := if Cols > 0 then Cols else 0;
      assert |grid0| + width <= |pattern| by {
        if Cols > 0 {
          IndexBound(Cols, Rows, Cols - 1, y);
        }
      }
      var row, rowBombs := NewRow(pattern, |grid0|, y);
      RowMajorAppendRow(grid0, row, Cols, y);
      BombsConcat(grid0, row);
      grid := grid0 + row;
      bombCells := bombs0 + rowBombs;
      forall j | |grid0| <= j < |grid|
        ensures fresh(grid[j]) && grid[j].bomb == pattern[j] && Initial(grid[j])
      {
        assert grid[j] == row[j - |grid0|];
      }
    }

    /**
     * The inner loop of the grid construction: creates the cells of row `y`,
     * left to right, where `pattern[start + x]` decides whether column `x`
     * holds a bomb, and collects those that are bombs.
     */
    method NewRow(pattern: seq<bool>, start: int, y: int) returns (row: seq<Cell>, rowBombs: seq<Cell>)
      requires 0 <= start && start + (if Cols > 0 then Cols else 0) <= |pattern|
      ensures |row| == (if Cols > 0 then Cols else 0) && rowBombs == Bombs(row)
      ensures forall j :: 0 <= j < |row| ==> fresh(row[j])
      ensures forall j :: 0 <= j < |row| ==>
        row[j].X == j && row[j].Y == y && row[j].bomb == pattern[start + j] && Initial(row[j])
    {
      row, rowBombs := [], [];
      var x := 0;
      while x < Cols
        invariant 0 <= x <= (if Cols > 0 then Cols else 0) && |row| == x && rowBombs == Bombs(row)
        invariant forall j :: 0 <= j < |row| ==> fresh(row[j])
        invariant forall j :: 0 <= j < |row| ==>
          row[j].X == j && row[j].Y == y && row[j].bomb == pattern[start + j] && Initial(row[j])
      {
        var isBomb := pattern[start + x];
        var cell := new Cell(x, y, isBomb, Some(0), true);
        BombsAppend(row, cell);
        row := row + [cell];
        if isBomb {
          rowBombs := rowBombs + [cell];
        }
        x := x + 1;
      }
    }

    /** The current value of every cell of `cs`, in order. */
    ghost function ValuesOf(cs: seq<Cell>): (v: seq<int>)
      reads cs
    {
      seq(|cs|, j requires 0 <= j < |cs| reads cs => cs[j].GetValue())
    }

    /** The current stored value of every cell of `cs`, in order. */
    ghost function RawValuesOf(cs: seq<Cell>): (v: seq<Option<int>>)
      reads cs
    {
      seq(|cs|, j requires 0 <= j < |cs| reads cs => cs[j].rawValue)
    }

    /**
     * Non-bomb cells have gained, over `v0`, one for each bomb of `done`
     * around them; bomb cells, and cells with no bomb of `done` around
     * them, are untouched.
     */
    ghost predicate CountedBombs(v0: seq<int>, r0: seq<Option<int>>, done: seq<Cell>)
      reads this, cells
    {
      |v0| == |cells| && |r0| == |cells| &&
      forall j :: 0 <= j < |cells| ==>
        if cells[j].bomb || NeighbourBombs(done, cells[j]) == 0 then cells[j].rawValue == r0[j]
        else cells[j].GetValue() == v0[j] + NeighbourBombs(done, cells[j])
    }

    /**
     * Non-bomb cells have gained, over `v0`, one if their step from `bomb`
     * comes before `(dx, dy)`; bomb cells, and cells whose step has not
     * come yet, are untouched.
     */
    ghost predicate CountedSteps(v0: seq<int>, r0: seq<Option<int>>, bomb: Cell, dx: int, dy: int)
      reads this, cells
    {
      |v0| == |cells| && |r0| == |cells| &&
      forall j :: 0 <= j < |cells| ==>
        if cells[j].bomb || Contribution(cells[j], bomb, dx, dy) == 0 then cells[j].rawValue == r0[j]
        else cells[j].GetValue() == v0[j] + Contribution(cells[j], bomb, dx, dy)
    }

    /**
     * Adds one to the value of every non-bomb cell around each bomb, so that
     * each non-bomb cell gains the number of bombs in its 8-neighbourhood.
     */
    method CalculateCellValues()
      requires Valid()
      modifies cells`rawValue
      ensures forall j :: 0 <= j < |cells| ==>
        cells[j].GetValue() == old(cells[j].GetValue()) + if cells[j].bomb then 0 else NeighbourBombs(cells, cells[j])
      ensures forall j :: 0 <= j < |cells| && (cells[j].bomb || NeighbourBombs(cells, cells[j]) == 0) ==>
        cells[j].rawValue == old(cells[j].rawValue)
      ensures forall j :: 0 <= j < |cells| ==>
        cells[j].hidden == old(cells[j].hidden) && cells[j].suspicious == old(cells[j].suspicious)
    {
      ghost var v0 := ValuesOf(cells);
      ghost var r0 := RawValuesOf(cells);
      var i := 0;
      while i < |bombs|
        invariant 0 <= i <= |bombs|
        invariant CountedBombs(v0, r0, bombs[..i])
      {
        var bomb := bombs[i];
        assert bomb.bomb by {
          BombsMembership(cells);
          assert bomb in bombs;
        }
        IncrementAround(bomb);
        forall j | 0 <= j < |cells|
          ensures NeighbourBombs(bombs[..i + 1], cells[j]) ==
            NeighbourBombs(bombs[..i], cells[j]) + if Adjacent(bomb, cells[j]) then 1 else 0
        {
          NeighbourBombsPrefix(bombs, i, cells[j]);
        }
        i := i + 1;
      }
      assert bombs[..i] == bombs;
      forall j | 0 <= j < |cells|
        ensures NeighbourBombs(bombs, cells[j]) == NeighbourBombs(cells, cells[j])
      {
        BombsNeighbourCount(cells, cells[j]);
      }
    }

    /**
     * The body of the value loop for one bomb: walks the 3x3 block of steps
     * around `bomb` row by row and adds one to every non-bomb cell in its
     * 8-neighbourhood. Bomb cells keep their stored value.
     */
    method IncrementAround(bomb: Cell)
      requires Valid()
      modifies cells`rawValue
      ensures forall j :: 0 <= j < |cells| ==>
        if cells[j].bomb || !Adjacent(bomb, cells[j]) then cells[j].rawValue == old(cells[j].rawValue)
        else cells[j].GetValue() == old(cells[j].GetValue()) + 1
    {
      ghost var v0 := ValuesOf(cells);
      ghost var r0 := RawValuesOf(cells);
      forall j | 0 <= j < |cells|
        ensures Contribution(cells[j], bomb, -CellRadius, -CellRadius) == 0
      {
        ContributionBounds(cells[j], bomb, 0);
      }
      var dy := -CellRadius;
      while dy <= CellRadius
        invariant -CellRadius <= dy <= CellRadius + 1
        invariant CountedSteps(v0, r0, bomb, -CellRadius, dy)
      {
        var dx := -CellRadius;
        while dx <= CellRadius
          invariant -CellRadius <= dx <= CellRadius + 1
          invariant CountedSteps(v0, r0, bomb, dx, dy)
        {
          BumpNeighbour(bomb, dx, dy);
          forall j | 0 <= j < |cells| && !cells[j].bomb
            ensures Contribution(cells[j], bomb, dx + 1, dy) ==
              Contribution(cells[j], bomb, dx, dy) + if Bumped(cells[j], bomb, dx, dy) then 1 else 0
          {
            ContributionStep(cells[j], bomb, dx, dy);
          }
          dx := dx + 1;
        }
        forall j | 0 <= j < |cells|
          ensures Contribution(cells[j], bomb, CellRadius + 1, dy) == Contribution(cells[j], bomb, -CellRadius, dy + 1)
        {
          ContributionBounds(cells[j], bomb, dy);
        }
        dy := dy + 1;
      }
      forall j | 0 <= j < |cells|
        ensures Contribution(cells[j], bomb, -CellRadius, CellRadius + 1) == if Adjacent(bomb, cells[j]) then 1 else 0
      {
        ContributionBounds(cells[j], bomb, 0);
      }
    }

    /**
     * One step of the value loop: the cell at offset `(dx, dy)` from `bomb`
     * gains one, unless the offset is `(0, 0)`, the position is outside the
     * grid, or that cell is a bomb. No other cell changes.
     */
    method BumpNeighbour(bomb: Cell, dx: int, dy: int)
      requires Valid()
      modifies cells`rawValue
      ensures forall j :: 0 <= j < |cells| ==>
        cells[j].rawValue == if Bumped(cells[j], bomb, dx, dy) then Some(old(cells[j].GetValue()) + 1) else old(cells[j].rawValue)
    {
      if dy == 0 && dx == 0 {
        return;
      }
      var cell := GetCell(bomb.X + dx, bomb.Y + dy);
      OccupiedBy(bomb.X + dx, bomb.Y + dy);
      if cell == null || cell.IsBomb() {
        return;
      }
      cell.SetValue(cell.GetValue() + 1);
    }

    /** The cell at `(x, y)`, or null outside the grid: the entry at row-major index `y * Cols + x`. */
    function GetCell(x: int, y: int): (r: Cell?)
      requires Sized()
      reads this
      ensures r == null <==> x < 0 || x >= Cols || y < 0 || y >= Rows
      ensures r != null ==> 0 <= Index(x, y, Cols) < |cells| && r == cells[Index(x, y, Cols)]
    {
      if x < 0 || x >= Cols || y < 0 || y >= Rows then null
      else
        var i := y * Cols + x;
        IndexProduct(x, y, Cols);
        IndexBound(Cols, Rows, x, y);
        cells[i]
    }

    /** In a valid grid the lookup returns the cell whose coordinates are `(x, y)`. */
    lemma GetCellPosition(x: int, y: int)
      requires Valid()
      ensures GetCell(x, y) != null ==> GetCell(x, y) in cells && GetCell(x, y).X == x && GetCell(x, y).Y == y
    {
      if GetCell(x, y) != null {
        var i := Index(x, y, Cols);
        IndexInjective(Cols, x, y, cells[i].X, cells[i].Y);
      }
    }

    /** An in-bounds lookup returns the cell stored at row-major index `y * Cols + x`. */
    lemma GetCellIndex(x: int, y: int)
      requires Valid()
      requires 0 <= x < Cols && 0 <= y < Rows
      ensures 0 <= y * Cols + x < |cells| && GetCell(x, y) == cells[y * Cols + x]
    {
      IndexProduct(x, y, Cols);
      IndexBound(Cols, Rows, x, y);
    }

    /** Cell `j` lies inside the grid and is what the lookup returns for its own coordinates. */
    lemma CellAt(j: int)
      requires Valid() && 0 <= j < |cells|
      ensures 0 <= cells[j].X < Cols && 0 <= cells[j].Y < Rows && GetCell(cells[j].X, cells[j].Y) == cells[j]
    {
      IndexBound(Cols, Rows, cells[j].X, cells[j].Y);
      IndexProduct(cells[j].X, cells[j].Y, Cols);
    }

    /** The cells at position `(x, y)` are exactly the one the lookup returns there. */
    lemma OccupiedBy(x: int, y: int)
      requires Valid()
      ensures forall j :: 0 <= j < |cells| ==> (cells[j].X == x && cells[j].Y == y <==> GetCell(x, y) == cells[j])
    {
      GetCellPosition(x, y);
      forall j | 0 <= j < |cells| && cells[j].X == x && cells[j].Y == y
        ensures GetCell(x, y) == cells[j]
      {
        CellAt(j);
      }
    }

    /** Every cell lies inside the grid and is what the lookup returns for its own coordinates. */
    lemma CellsAtOwnPosition()
      requires Valid()
      ensures forall j :: 0 <= j < |cells| ==>
        0 <= cells[j].X < Cols && 0 <= cells[j].Y < Rows && GetCell(cells[j].X, cells[j].Y) == cells[j]
    {
      forall j | 0 <= j < |cells|
        ensures 0 <= cells[j].X < Cols && 0 <= cells[j].Y < Rows && GetCell(cells[j].X, cells[j].Y) == cells[j]
      {
        CellAt(j);
      }
    }

    /** Cell `j` sits at column `j % Cols` of row `j / Cols`. */
    lemma CellCoordinates(j: int)
      requires Valid() && 0 <= j < |cells|
      ensures cells[j].X == j % Cols && cells[j].Y == j / Cols
    {
      IndexDivMod(cells[j].X, cells[j].Y, Cols);
    }

    /**
     * `bombs` holds exactly the bomb cells of the grid, in strictly
     * increasing row-major order, so each of them once.
     */
    lemma BombList()
      requires Valid()
      ensures forall d :: d in bombs <==> d in cells && d.bomb
      ensures forall i, j :: 0 <= i < j < |bombs| ==>
        Index(bombs[i].X, bombs[i].Y, Cols) < Index(bombs[j].X, bombs[j].Y, Cols)
    {
      BombsMembership(cells);
      BombsOrdered(cells, Cols);
    }

    /** The row-major index of position `(x, y)`, or -1 when it is outside the grid. */
    function PositionIndex(x: int, y: int): (i: int)
      ensures i == -1 <==> x < 0 || x >= Cols || y < 0 || y >= Rows
      ensures i != -1 ==> 0 <= i < CellCount(Cols, Rows) && i == Index(x, y, Cols)
    {
      if 0 <= x < Cols && 0 <= y < Rows then IndexBound(Cols, Rows, x, y); Index(x, y, Cols) else -1
    }

    /** The row-major index of the cell that entry `k` of the flood-fill step table leads to from `c`, or -1. */
    function StepIndex(c: Cell, k: int): int
      requires 0 <= k < |FfNeighbourOffsets|
    {
      PositionIndex(c.X + FfNeighbourOffsets[k].0, c.Y + FfNeighbourOffsets[k].1)
    }

    /** The cell that entry `k` of the flood-fill step table leads to from `c`, or null outside the grid. */
    function Step(c: Cell, k: int): (r: Cell?)
      requires Sized() && 0 <= k < |FfNeighbourOffsets|
      reads this
      ensures r == null <==> StepIndex(c, k) == -1
      ensures r != null ==> 0 <= StepIndex(c, k) < |cells| && r == cells[StepIndex(c, k)]
    {
      GetCell(c.X + FfNeighbourOffsets[k].0, c.Y + FfNeighbourOffsets[k].1)
    }

    /** Every entry of the step table leads to one of the eight cells around `c`. */
    lemma StepAdjacent(c: Cell, k: int)
      requires Valid() && 0 <= k < |FfNeighbourOffsets|
      ensures Step(c, k) != null ==> Adjacent(Step(c, k), c)
    {
      GetCellPosition(c.X + FfNeighbourOffsets[k].0, c.Y + FfNeighbourOffsets[k].1);
    }

    /** From any grid cell, some entry of the step table leads to each grid cell around it except the one to its west. */
    lemma StepCovers(p: int, q: int)
      requires Valid() && 0 <= p < |cells| && 0 <= q < |cells| && Adjacent(cells[q], cells[p])
      requires (cells[q].X - cells[p].X, cells[q].Y - cells[p].Y) != (-1, 0)
      ensures exists k :: 0 <= k < |FfNeighbourOffsets| && StepIndex(cells[p], k) == q
    {
      var k := OffsetIndex(cells[q].X - cells[p].X, cells[q].Y - cells[p].Y);
      IndexBound(Cols, Rows, cells[q].X, cells[q].Y);
      assert StepIndex(cells[p], k) == PositionIndex(cells[q].X, cells[q].Y);
    }

    /** The in-grid cells the first `n` entries of the step table lead to from `c`, in table order. */
    function Neighbours(c: Cell, n: int): (ns: seq<Cell>)
      requires Sized() && 0 <= n <= |FfNeighbourOffsets|
      reads this
      ensures |ns| <= n
    {
      if n == 0 then []
      else
        var s := Step(c, n - 1);
        Neighbours(c, n - 1) + if s != null then [s] else []
    }

    /** Entry `k` of the step table leads from `p` to the cell at index `j`. */
    ghost predicate PushedBy(p: Cell, j: int)
    {
      exists k :: 0 <= k < |FfNeighbourOffsets| && StepIndex(p, k) == j
    }

    /** Every in-grid target of the first `n` table entries is pushed. */
    lemma {:induction false} NeighboursCover(c: Cell, n: int)
      requires Sized() && 0 <= n <= |FfNeighbourOffsets|
      ensures forall k :: 0 <= k < n && StepIndex(c, k) != -1 ==> cells[StepIndex(c, k)] in Neighbours(c, n)
    {
      if n > 0 {
        NeighboursCover(c, n - 1);
        var s := Step(c, n - 1);
        var ns := Neighbours(c, n - 1);
        assert Neighbours(c, n) == ns + if s != null then [s] else [];
        forall k | 0 <= k < n && StepIndex(c, k) != -1
          ensures cells[StepIndex(c, k)] in Neighbours(c, n)
        {
          if k < n - 1 {
            assert cells[StepIndex(c, k)] in ns;
          } else {
            assert cells[StepIndex(c, k)] == s;
          }
        }
      }
    }

    /** Every pushed cell is a cell of the grid. */
    lemma {:induction false} NeighboursInGrid(c: Cell, n: int)
      requires Sized() && 0 <= n <= |FfNeighbourOffsets|
      ensures forall q :: q in Neighbours(c, n) ==> q in cells
    {
      if n > 0 {
        NeighboursInGrid(c, n - 1);
        var s := Step(c, n - 1);
        assert Neighbours(c, n) == Neighbours(c, n - 1) + if s != null then [s] else [];
      }
    }

    /** Every pushed cell is the target of one of the first `n` table entries. */
    lemma {:induction false} NeighboursPushed(c: Cell, n: int)
      requires Valid() && 0 <= n <= |FfNeighbourOffsets|
      ensures forall j :: 0 <= j < |cells| && cells[j] in Neighbours(c, n) ==> PushedBy(c, j)
    {
      if n > 0 {
        NeighboursPushed(c, n - 1);
        var s := Step(c, n - 1);
        var ns := Neighbours(c, n - 1);
        assert Neighbours(c, n) == ns + if s != null then [s] else [];
        if s != null {
          forall j | 0 <= j < |cells| && cells[j] == s
            ensures PushedBy(c, j)
          {
            assert StepIndex(c, n - 1) == j;
          }
        }
      }
    }

    /** The hidden flag of every cell of `cs`, in order. */
    ghost function HiddenOf(cs: seq<Cell>): (h: seq<bool>)
      reads cs
    {
      seq(|cs|, j requires 0 <= j < |cs| reads cs => cs[j].hidden)
    }

    /** Flags that agree with every cell's hidden flag are exactly `HiddenOf(cells)`. */
    lemma HiddenOfMirror(hs: seq<bool>)
      requires |hs| == |cells| && forall j :: 0 <= j < |cells| ==> cells[j].hidden == hs[j]
      ensures HiddenOf(cells) == hs
    {
    }

    /** The inner loop of the flood fill: appends to `queue` every in-grid cell the step table leads to from `cell`. */
    method PushNeighbours(cell: Cell, queue: seq<Cell>) returns (queue': seq<Cell>)
      requires Sized()
      ensures queue' == queue + Neighbours(cell, |FfNeighbourOffsets|)
    {
      queue' := queue;
      for i := 0 to |FfNeighbourOffsets|
        invariant queue' == queue + Neighbours(cell, i)
      {
        var neighbour := Step(cell, i);
        assert Neighbours(cell, i + 1) == Neighbours(cell, i) + if neighbour != null then [neighbour] else [];
        if neighbour != null {
          queue' := queue' + [neighbour];
        }
      }
    }

    /** Whether each cell of `cs` expands toward `targetValue`, in order. */
    ghost function ExpandsOf(cs: seq<Cell>, targetValue: int): (e: seq<bool>)
      reads cs
    {
      seq(|cs|, j requires 0 <= j < |cs| reads cs => Expands(cs[j], targetValue))
    }

    /**
     * Cell `p` can stand as the parent of cell `j` in a flood fill that
     * started from the hidden flags `h0`, has reached the flags `hs`, and
     * expands from the cells `ex` marks: `p` was hidden, is revealed,
     * expands, pushes `j`, and comes before `j` in the order `rank`.
     */
    ghost predicate ParentOk(p: int, j: int, h0: seq<bool>, hs: seq<bool>, ex: seq<bool>, rank: seq<nat>)
      reads this
    {
      0 <= p < |cells| && 0 <= j < |cells| &&
      |h0| == |cells| && |hs| == |cells| && |ex| == |cells| && |rank| == |cells| &&
      h0[p] && !hs[p] && ex[p] && PushedBy(cells[p], j) && rank[p] < rank[j]
    }

    /**
     * The flood-fill loop's state is consistent: `queue` holds grid cells;
     * no flag went from revealed to hidden; every cell revealed so far and
     * every hidden queued cell, except the start `s`, has a parent of lower
     * rank; every target of a revealed expanding cell is revealed or queued;
     * the start is revealed or queued; and a missing or already revealed
     * start leaves nothing to do.
     */
    ghost predicate Filling(queue: seq<Cell>, h0: seq<bool>, hs: seq<bool>, parent: seq<int>, rank: seq<nat>,
                            ex: seq<bool>, s: int)
      reads this
    {
      |cells| == CellCount(Cols, Rows) &&
      |h0| == |cells| && |hs| == |cells| && |parent| == |cells| && |rank| == |cells| && |ex| == |cells| &&
      -1 <= s < |cells| &&
      (forall q :: q in queue ==> q in cells) &&
      (forall j :: 0 <= j < |cells| && !h0[j] ==> !hs[j]) &&
      (forall j {:trigger parent[j]} :: 0 <= j < |cells| && h0[j] && !hs[j] && j != s ==>
        ParentOk(parent[j], j, h0, hs, ex, rank)) &&
      (forall j {:trigger parent[j]} :: 0 <= j < |cells| && cells[j] in queue && hs[j] && j != s ==>
        ParentOk(parent[j], j, h0, hs, ex, rank)) &&
      (forall i, k ::
        (0 <= i < |cells| && 0 <= k < |FfNeighbourOffsets| && h0[i] && !hs[i] && ex[i] &&
         StepIndex(cells[i], k) != -1) ==>
        !hs[StepIndex(cells[i], k)] || cells[StepIndex(cells[i], k)] in queue) &&
      (s != -1 ==> !hs[s] || cells[s] in queue) &&
      (s == -1 ==> queue == [] && hs == h0) &&
      (s != -1 && !h0[s] ==> hs == h0 && forall q :: q in queue ==> q == cells[s])
    }

    /** The state before the first round: only the start, if any, is queued, and nothing has a parent. */
    lemma FillStart(queue: seq<Cell>, h0: seq<bool>, ex: seq<bool>, s: int)
      requires Valid() && |h0| == |cells| && |ex| == |cells| && -1 <= s < |cells|
      requires queue == if s == -1 then [] else [cells[s]]
      ensures Filling(queue, h0, h0, seq(|cells|, j => -1), seq(|cells|, j => 0), ex, s)
    {
      forall j | 0 <= j < |cells| && cells[j] in queue
        ensures j == s
      {
      }
    }

    /** Popping a cell that is already revealed keeps the state consistent. */
    lemma FillSkip(queue: seq<Cell>, h0: seq<bool>, hs: seq<bool>, parent: seq<int>, rank: seq<nat>,
                   ex: seq<bool>, s: int, k: int)
      requires Valid() && Filling(queue, h0, hs, parent, rank, ex, s)
      requires queue != [] && 0 <= k < |cells| && cells[k] == queue[0] && !hs[k]
      ensures Filling(queue[1..], h0, hs, parent, rank, ex, s)
    {
      assert forall q :: q in queue[1..] ==> q in queue;
      forall j | 0 <= j < |cells| && cells[j] in queue && !(cells[j] in queue[1..])
        ensures j == k
      {
      }
    }

    /** Revealing the popped cell when it does not expand keeps the state consistent. */
    lemma FillReveal(queue: seq<Cell>, h0: seq<bool>, hs: seq<bool>, parent: seq<int>, rank: seq<nat>,
                     ex: seq<bool>, s: int, k: int)
      requires Valid() && Filling(queue, h0, hs, parent, rank, ex, s)
      requires queue != [] && 0 <= k < |cells| && cells[k] == queue[0] && hs[k] && !ex[k]
      ensures Filling(queue[1..], h0, hs[k := false], parent, rank, ex, s)
    {
      var queue', hs' := queue[1..], hs[k := false];
      assert forall q :: q in queue' ==> q in queue;
      forall j | 0 <= j < |cells| && cells[j] in queue && !(cells[j] in queue')
        ensures j == k
      {
      }
      forall j | 0 <= j < |cells| && ParentOk(parent[j], j, h0, hs, ex, rank)
        ensures ParentOk(parent[j], j, h0, hs', ex, rank)
      {
      }
      assert ParentOk(parent[k], k, h0, hs, ex, rank) || k == s;
    }

    /**
     * Revealing the popped cell `k` when it expands and queueing the cells
     * `pushed` it leads to keeps the state consistent, when each of those
     * still hidden takes `k` as its parent, one rank above `k`.
     */
    lemma FillExpand(queue: seq<Cell>, h0: seq<bool>, hs: seq<bool>, parent: seq<int>, rank: seq<nat>,
                     ex: seq<bool>, s: int, k: int, pushed: seq<Cell>)
      requires Valid() && Filling(queue, h0, hs, parent, rank, ex, s)
      requires queue != [] && 0 <= k < |cells| && cells[k] == queue[0] && hs[k] && ex[k]
      requires forall q :: q in pushed ==> q in cells
      requires forall i :: 0 <= i < |FfNeighbourOffsets| && StepIndex(cells[k], i) != -1 ==>
        cells[StepIndex(cells[k], i)] in pushed
      requires forall j :: 0 <= j < |cells| && cells[j] in pushed ==> PushedBy(cells[k], j)
      ensures var hs' := hs[k := false];
        Filling(queue[1..] + pushed, h0, hs', Adopt(parent, cells, pushed, hs', k),
                Adopt(rank, cells, pushed, hs', rank[k] + 1), ex, s)
    {
      assert forall q :: q in queue[1..] ==> q in queue;
      FillAdopt(queue, h0, hs, parent, rank, ex, s, k, pushed);
      FillClosure(queue, h0, hs, parent, rank, ex, s, k, pushed);
    }

    /** Two indices holding the same cell object are equal. */
    lemma SameCell(i: int, j: int)
      requires Valid() && 0 <= i < |cells| && 0 <= j < |cells| && cells[i] == cells[j]
      ensures i == j
    {
    }

    /** The queue half of `FillExpand`: every target of a revealed expanding cell is revealed or queued. */
    lemma FillClosure(queue: seq<Cell>, h0: seq<bool>, hs: seq<bool>, parent: seq<int>, rank: seq<nat>,
                      ex: seq<bool>, s: int, k: int, pushed: seq<Cell>)
      requires Valid() && Filling(queue, h0, hs, parent, rank, ex, s)
      requires queue != [] && 0 <= k < |cells| && cells[k] == queue[0] && hs[k] && ex[k]
      requires forall q :: q in pushed ==> q in cells
      requires forall i :: 0 <= i < |FfNeighbourOffsets| && StepIndex(cells[k], i) != -1 ==>
        cells[StepIndex(cells[k], i)] in pushed
      requires forall j :: 0 <= j < |cells| && cells[j] in pushed ==> PushedBy(cells[k], j)
      ensures forall q :: q in queue[1..] + pushed ==> q in cells
      ensures var queue', hs' := queue[1..] + pushed, hs[k := false];
        forall i, d ::
          (0 <= i < |cells| && 0 <= d < |FfNeighbourOffsets| && h0[i] && !hs'[i] && ex[i] &&
           StepIndex(cells[i], d) != -1) ==>
          !hs'[StepIndex(cells[i], d)] || cells[StepIndex(cells[i], d)] in queue'
      ensures s != -1 ==> !hs[k := false][s] || cells[s] in queue[1..] + pushed
      ensures s == -1 || h0[s]
    {
      assert forall q :: q in queue[1..] ==> q in queue;
      if s != -1 && !h0[s] {
        assert queue[0] in queue;
        SameCell(k, s);
        assert false;
      }
    }

    /**
     * The parent half of `FillExpand`: each revealed cell and each hidden
     * queued cell still has a parent of lower rank.
     */
    lemma FillAdopt(queue: seq<Cell>, h0: seq<bool>, hs: seq<bool>, parent: seq<int>, rank: seq<nat>,
                    ex: seq<bool>, s: int, k: int, pushed: seq<Cell>)
      requires Valid() && Filling(queue, h0, hs, parent, rank, ex, s)
      requires queue != [] && 0 <= k < |cells| && cells[k] == queue[0] && hs[k] && ex[k]
      requires forall q :: q in pushed ==> q in cells
      requires forall j :: 0 <= j < |cells| && cells[j] in pushed ==> PushedBy(cells[k], j)
      ensures var hs' := hs[k := false];
        var parent', rank' := Adopt(parent, cells, pushed, hs', k), Adopt(rank, cells, pushed, hs', rank[k] + 1);
        forall j {:trigger parent'[j]} :: 0 <= j < |cells| && h0[j] && !hs'[j] && j != s ==>
          ParentOk(parent'[j], j, h0, hs', ex, rank')
      ensures var queue', hs' := queue[1..] + pushed, hs[k := false];
        var parent', rank' := Adopt(parent, cells, pushed, hs', k), Adopt(rank, cells, pushed, hs', rank[k] + 1);
        forall j {:trigger parent'[j]} :: 0 <= j < |cells| && cells[j] in queue' && hs'[j] && j != s ==>
          ParentOk(parent'[j], j, h0, hs', ex, rank')
    {
      var hs' := hs[k := false];
      var rank' := Adopt(rank, cells, pushed, hs', rank[k] + 1);
      assert forall q :: q in queue[1..] ==> q in queue;
      forall j | 0 <= j < |cells| && ParentOk(parent[j], j, h0, hs, ex, rank) && !(cells[j] in pushed && hs'[j])
        ensures ParentOk(parent[j], j, h0, hs', ex, rank')
      {
      }
      assert h0[k] && rank'[k] == rank[k];
    }

    /**
     * Every newly revealed cell other than the start `s` is pushed by a
     * newly revealed expanding cell of lower rank. Following such parents
     * from any newly revealed cell therefore reaches the start.
     */
    ghost predicate Ranked(was: seq<bool>, now: seq<bool>, ex: seq<bool>, s: int, rank: seq<nat>)
      reads this
    {
      |was| == |cells| && |now| == |cells| && |ex| == |cells| && |rank| == |cells| &&
      forall j :: 0 <= j < |cells| && was[j] && !now[j] && j != s ==>
        exists p :: 0 <= p < |cells| && was[p] && !now[p] && ex[p] && PushedBy(cells[p], j) && rank[p] < rank[j]
    }

    /**
     * What a finished flood fill from the cell at index `s` (-1 when the
     * start is outside the grid) toward the cells `ex` marks as expanding
     * means, for hidden flags `was` before and `now` after: no flag goes
     * from revealed to hidden; the start is revealed; every newly revealed
     * cell is reached from the start through newly revealed expanding
     * cells (`Ranked`, spelled out by `FloodReachable`); every cell such a
     * cell pushes is revealed; and nothing changes when the start is
     * missing or was already revealed.
     */
    ghost predicate FloodResult(was: seq<bool>, now: seq<bool>, ex: seq<bool>, s: int)
      reads this
    {
      Sized() && |was| == |cells| && |now| == |cells| && |ex| == |cells| && -1 <= s < |cells| &&
      (forall j :: 0 <= j < |cells| && !was[j] ==> !now[j]) &&
      (s != -1 ==> !now[s]) &&
      (exists rank: seq<nat> :: Ranked(was, now, ex, s, rank)) &&
      (forall i, k ::
        (0 <= i < |cells| && 0 <= k < |FfNeighbourOffsets| && was[i] && !now[i] && ex[i] &&
         StepIndex(cells[i], k) != -1) ==>
        !now[StepIndex(cells[i], k)]) &&
      (s == -1 || !was[s] ==> now == was)
    }

    /**
     * `path` is a chain of flood-fill steps from the start `s`: every cell
     * on it but the last is a newly revealed expanding cell, and pushes the
     * next one.
     */
    ghost predicate FillPath(path: seq<int>, was: seq<bool>, now: seq<bool>, ex: seq<bool>, s: int)
      reads this
    {
      |was| == |cells| && |now| == |cells| && |ex| == |cells| &&
      |path| > 0 && path[0] == s &&
      (forall i :: 0 <= i < |path| ==> 0 <= path[i] < |cells|) &&
      (forall i :: 0 <= i < |path| - 1 ==>
        was[path[i]] && !now[path[i]] && ex[path[i]] && PushedBy(cells[path[i]], path[i + 1]))
    }

    /** A chain of flood-fill steps from the start to the newly revealed cell `j`, found by following parents. */
    ghost function ChainTo(was: seq<bool>, now: seq<bool>, ex: seq<bool>, s: int, rank: seq<nat>, j: int): (path: seq<int>)
      requires Ranked(was, now, ex, s, rank)
      requires 0 <= j < |cells| && was[j] && !now[j]
      reads this
      ensures FillPath(path, was, now, ex, s) && path[|path| - 1] == j
      decreases rank[j]
    {
      if j == s then [s]
      else
        var p :| 0 <= p < |cells| && was[p] && !now[p] && ex[p] && PushedBy(cells[p], j) && rank[p] < rank[j];
        var prefix := ChainTo(was, now, ex, s, rank, p);
        assert prefix[|prefix| - 1] == p;
        prefix + [j]
    }

    /** In a finished flood fill every newly revealed cell is reached from the start by a chain of steps. */
    lemma FloodReachable(was: seq<bool>, now: seq<bool>, ex: seq<bool>, s: int)
      requires FloodResult(was, now, ex, s)
      ensures forall j :: 0 <= j < |cells| && was[j] && !now[j] ==>
        exists path :: FillPath(path, was, now, ex, s) && path[|path| - 1] == j
    {
      var rank :| Ranked(was, now, ex, s, rank);
      forall j | 0 <= j < |cells| && was[j] && !now[j]
        ensures exists path :: FillPath(path, was, now, ex, s) && path[|path| - 1] == j
      {
        var path := ChainTo(was, now, ex, s, rank, j);
      }
    }

    /**
     * Every cell on a chain of flood-fill steps from the start, up to one
     * that was hidden, is revealed by any finished flood fill of the same
     * flags.
     */
    lemma {:induction false} PathRevealed(path: seq<int>, was: seq<bool>, now: seq<bool>, now': seq<bool>,
                                          ex: seq<bool>, s: int, i: int)
      requires FloodResult(was, now', ex, s) && FillPath(path, was, now, ex, s)
      requires 0 <= i < |path| && was[path[i]]
      ensures !now'[path[i]]
      decreases i
    {
      if i > 0 {
        PathRevealed(path, was, now, now', ex, s, i - 1);
        var k :| 0 <= k < |FfNeighbourOffsets| && StepIndex(cells[path[i - 1]], k) == path[i];
      }
    }

    /**
     * A finished flood fill is determined by the flags before it, the
     * expanding cells and the start: two finished fills agree on every flag.
     */
    lemma FloodUnique(was: seq<bool>, now: seq<bool>, now': seq<bool>, ex: seq<bool>, s: int)
      requires FloodResult(was, now, ex, s) && FloodResult(was, now', ex, s)
      ensures now == now'
    {
      FloodReachable(was, now, ex, s);
      FloodReachable(was, now', ex, s);
      forall j | 0 <= j < |cells|
        ensures now[j] == now'[j]
      {
        if was[j] && !now[j] {
          var path :| FillPath(path, was, now, ex, s) && path[|path| - 1] == j;
          PathRevealed(path, was, now, now', ex, s, |path| - 1);
        } else if was[j] && !now'[j] {
          var path :| FillPath(path, was, now', ex, s) && path[|path| - 1] == j;
          PathRevealed(path, was, now', now, ex, s, |path| - 1);
        }
      }
    }

    /**
     * A finished flood fill reveals every cell around a newly revealed
     * expanding cell except the one directly west of it, and every newly
     * revealed cell other than the start lies around a newly revealed
     * expanding cell.
     */
    lemma FloodAdjacency(was: seq<bool>, now: seq<bool>, ex: seq<bool>, s: int)
      requires Valid() && FloodResult(was, now, ex, s)
      ensures forall p, q ::
        (0 <= p < |cells| && 0 <= q < |cells| && was[p] && !now[p] && ex[p] && Adjacent(cells[q], cells[p]) &&
         !(cells[q].X == cells[p].X - 1 && cells[q].Y == cells[p].Y)) ==>
        !now[q]
      ensures forall j :: 0 <= j < |cells| && was[j] && !now[j] && j != s ==>
        exists p :: 0 <= p < |cells| && was[p] && !now[p] && ex[p] && Adjacent(cells[j], cells[p])
    {
      forall p, q | 0 <= p < |cells| && 0 <= q < |cells| && was[p] && !now[p] && ex[p] &&
        Adjacent(cells[q], cells[p]) && !(cells[q].X == cells[p].X - 1 && cells[q].Y == cells[p].Y)
        ensures !now[q]
      {
        StepCovers(p, q);
      }
      var rank :| Ranked(was, now, ex, s, rank);
      forall j | 0 <= j < |cells| && was[j] && !now[j] && j != s
        ensures exists p :: 0 <= p < |cells| && was[p] && !now[p] && ex[p] && Adjacent(cells[j], cells[p])
      {
        var p :| 0 <= p < |cells| && was[p] && !now[p] && ex[p] && PushedBy(cells[p], j) && rank[p] < rank[j];
        PushedAdjacent(p, j);
      }
    }

    /** A cell that some entry of the step table leads to from cell `p` lies around cell `p`. */
    lemma PushedAdjacent(p: int, j: int)
      requires Valid() && 0 <= p < |cells| && 0 <= j < |cells| && PushedBy(cells[p], j)
      ensures Adjacent(cells[j], cells[p])
    {
      var k :| 0 <= k < |FfNeighbourOffsets| && StepIndex(cells[p], k) == j;
      StepAdjacent(cells[p], k);
      GetCellPosition(cells[p].X + FfNeighbourOffsets[k].0, cells[p].Y + FfNeighbourOffsets[k].1);
    }

    /** When nothing is left to visit, the flags reached are a finished flood fill. */
    lemma FillDone(h0: seq<bool>, hs: seq<bool>, parent: seq<int>, rank: seq<nat>, ex: seq<bool>, s: int)
      requires Valid() && Filling([], h0, hs, parent, rank, ex, s)
      ensures FloodResult(h0, hs, ex, s)
    {
      forall j | 0 <= j < |cells| && h0[j] && !hs[j] && j != s
        ensures exists p :: 0 <= p < |cells| && h0[p] && !hs[p] && ex[p] && PushedBy(cells[p], j) && rank[p] < rank[j]
      {
        assert ParentOk(parent[j], j, h0, hs, ex, rank);
      }
      assert Ranked(h0, hs, ex, s, rank);
    }

    /**
     * One round of the flood-fill loop: takes the first queued cell; if it
     * is hidden, reveals it and, when it expands, queues the cells the step
     * table leads to. Returns the new queue and the ghost bookkeeping.
     */
    method Visit(processing: seq<Cell>, targetValue: int, ghost h0: seq<bool>, ghost hs: seq<bool>,
                 ghost parent: seq<int>, ghost rank: seq<nat>, ghost ex: seq<bool>, ghost s: int)
      returns (processing': seq<Cell>, ghost hs': seq<bool>, ghost parent': seq<int>, ghost rank': seq<nat>)
      requires Valid() && Filling(processing, h0, hs, parent, rank, ex, s) && processing != []
      requires forall j :: 0 <= j < |cells| ==> cells[j].hidden == hs[j]
      requires forall j :: 0 <= j < |cells| ==> ex[j] == Expands(cells[j], targetValue)
      modifies cells`hidden
      ensures Filling(processing', h0, hs', parent', rank', ex, s)
      ensures forall j :: 0 <= j < |cells| ==> cells[j].hidden == hs'[j]
      ensures CountTrue(hs') < CountTrue(hs) || (hs' == hs && |processing'| < |processing|)
    {
      var cell := processing[0];
      assert cell in processing;
      ghost var k :| 0 <= k < |cells| && cells[k] == cell;
      if !cell.IsHidden() {
        FillSkip(processing, h0, hs, parent, rank, ex, s, k);
        return processing[1..], hs, parent, rank;
      }
      cell.SetHidden(false);
      CountTrueClear(hs, k);
      hs' := hs[k := false];
      if cell.IsBomb() || cell.GetValue() != targetValue {
        FillReveal(processing, h0, hs, parent, rank, ex, s, k);
        return processing[1..], hs', parent, rank;
      }
      ghost var pushed := Neighbours(cell, |FfNeighbourOffsets|);
      NeighboursCover(cell, |FfNeighbourOffsets|);
      NeighboursPushed(cell, |FfNeighbourOffsets|);
      NeighboursInGrid(cell, |FfNeighbourOffsets|);
      FillExpand(processing, h0, hs, parent, rank, ex, s, k, pushed);
      processing' := PushNeighbours(cell, processing[1..]);
      parent' := Adopt(parent, cells, pushed, hs', k);
      rank' := Adopt(rank, cells, pushed, hs', rank[k] + 1);
    }

    /** The flood-fill loop: visits queued cells until the queue is empty. */
    method Drain(processing: seq<Cell>, targetValue: int, ghost h0: seq<bool>, ghost hs: seq<bool>,
                 ghost parent: seq<int>, ghost rank: seq<nat>, ghost ex: seq<bool>, ghost s: int)
      returns (ghost hs': seq<bool>, ghost parent': seq<int>, ghost rank': seq<nat>)
      requires Valid() && Filling(processing, h0, hs, parent, rank, ex, s)
      requires forall j :: 0 <= j < |cells| ==> cells[j].hidden == hs[j]
      requires forall j :: 0 <= j < |cells| ==> ex[j] == Expands(cells[j], targetValue)
      modifies cells`hidden
      ensures Filling([], h0, hs', parent', rank', ex, s)
      ensures forall j :: 0 <= j < |cells| ==> cells[j].hidden == hs'[j]
    {
      var queue := processing;
      hs', parent', rank' := hs, parent, rank;
      while |queue| > 0
        invariant Valid() && Filling(queue, h0, hs', parent', rank', ex, s)
        invariant forall j :: 0 <= j < |cells| ==> cells[j].hidden == hs'[j]
        invariant forall j :: 0 <= j < |cells| ==> ex[j] == Expands(cells[j], targetValue)
        decreases CountTrue(hs'), |queue|
      {
        queue, hs', parent', rank' := Visit(queue, targetValue, h0, hs', parent', rank', ex, s);
      }
    }

    /**
     * Reveals the cell at `(startX, startY)` and, from every revealed
     * non-bomb cell whose value is `targetValue`, the cells the step table
     * leads to, until nothing is left to visit. Only hidden flags change,
     * and they change as `FloodResult` describes.
     */
    method FloodFill(startX: int, startY: int, targetValue: int)
      requires Valid()
      modifies cells`hidden
      ensures FloodResult(old(HiddenOf(cells)), HiddenOf(cells), old(ExpandsOf(cells, targetValue)), PositionIndex(startX, startY))
    {
      ghost var h0 := HiddenOf(cells);
      ghost var ex := ExpandsOf(cells, targetValue);
      ghost var s := PositionIndex(startX, startY);
      var start := GetCell(startX, startY);
      var processing: seq<Cell> := [];
      if start != null {
        processing := processing + [start];
      }
      FillStart(processing, h0, ex, s);
      ghost var hs, parent, rank := Drain(processing, targetValue, h0, h0, seq(|cells|, j => -1), seq(|cells|, j => 0), ex, s);
      FillDone(h0, hs, parent, rank, ex, s);
      HiddenOfMirror(hs);
    }
  }
}
