/**
 * Pure facts about the board layout: row-major indexing, the 8-neighbourhood,
 * the bomb list as a filter of the cell list, and neighbour-bomb counts.
 * Only the immutable parts of a cell (its coordinates and its bomb bit) are
 * used here, so none of these definitions reads the heap.
 */
module Grid {
  import opened Cells

  /**
   * Number of cells in `rows` full rows of a grid `cols` wide: what the
   * nested row/column loops of the grid construction create, and the
   * row-major index of the first cell of row `rows`. Defined row by row so
   * that it stays linear; CellCountProduct gives the product.
   */
  function CellCount(cols: int, rows: int): nat
  {
    if cols <= 0 || rows <= 0 then 0 else CellCount(cols, rows - 1) + cols
  }

  /** For a positive width, `rows` rows hold `rows * cols` cells. */
  lemma {:induction false} CellCountProduct(cols: int, rows: int)
    requires cols > 0 && rows >= 0
    ensures CellCount(cols, rows) == rows * cols
  {
    if rows > 0 {
      CellCountProduct(cols, rows - 1);
    }
  }

  /** A later row starts at least one full row after an earlier one. */
  lemma {:induction false} CellCountGrows(cols: int, a: int, b: int)
    requires cols > 0 && 0 <= a < b
    ensures CellCount(cols, a) + cols <= CellCount(cols, b)
  {
    if a < b - 1 {
      CellCountGrows(cols, a, b - 1);
    }
  }

  /** Row-major index of column `x` of row `y` in a grid `cols` wide. */
  function Index(x: int, y: int, cols: int): int
  {
    CellCount(cols, y) + x
  }

  /** Two in-row positions with the same row-major index are the same position. */
  lemma IndexInjective(cols: int, x: int, y: int, x': int, y': int)
    requires 0 <= x < cols && 0 <= x' < cols && 0 <= y && 0 <= y'
    requires Index(x, y, cols) == Index(x', y', cols)
    ensures x == x' && y == y'
  {
    if y < y' {
      CellCountGrows(cols, y, y');
      assert false;
    } else if y' < y {
      CellCountGrows(cols, y', y);
      assert false;
    }
  }

  /** The position at column `x` of row `y` lies inside a grid of `rows` rows exactly when `y < rows`. */
  lemma IndexBound(cols: int, rows: int, x: int, y: int)
    requires 0 <= x < cols && 0 <= y
    ensures Index(x, y, cols) < CellCount(cols, rows) <==> y < rows
  {
    if y < rows {
      CellCountGrows(cols, y, rows);
    } else if rows <= 0 {
    } else if rows < y {
      CellCountGrows(cols, rows, y);
    }
  }

  /** The row-major index is the source's `y * cols + x`. */
  lemma IndexProduct(x: int, y: int, cols: int)
    requires cols > 0 && y >= 0
    ensures Index(x, y, cols) == y * cols + x
  {
    CellCountProduct(cols, y);
  }

  /** Column and row are the remainder and the quotient of the row-major index by the width. */
  lemma IndexDivMod(x: int, y: int, cols: int)
    requires 0 <= x < cols && 0 <= y
    ensures Index(x, y, cols) % cols == x && Index(x, y, cols) / cols == y
  {
    IndexProduct(x, y, cols);
    var i := Index(x, y, cols);
    var q, r := i / cols, i % cols;
    DivisionUnique(q, y, cols, r, x);
  }

  /** Quotient and remainder of a division by a positive number are unique. */
  lemma DivisionUnique(a: int, b: int, c: int, r: int, x: int)
    requires 0 <= r < c && 0 <= x < c && a * c + r == b * c + x
    ensures a == b && r == x
  {
    if a > b {
      MulAtLeast(a - b, c);
    } else if b > a {
      MulAtLeast(b - a, c);
    }
  }

  /** A positive multiple of a positive number is at least that number. */
  lemma {:induction false} MulAtLeast(a: int, c: int)
    requires a >= 1 && c > 0
    ensures a * c >= c
  {
    if a > 1 {
      MulAtLeast(a - 1, c);
      assert a * c == (a - 1) * c + c;
    }
  }

  /**
   * The cells of `cs` sit at the positions of a grid `cols` wide, row by
   * row: each cell lies inside a row and its row-major index is its index
   * in `cs`. Stated one cell at a time, as the grid is built; RowMajorAt
   * gives the property for any index.
   */
  ghost predicate RowMajor(cs: seq<Cell>, cols: int)
  {
    cs == [] ||
    (RowMajor(cs[..|cs| - 1], cols) &&
     0 <= cs[|cs| - 1].X < cols && 0 <= cs[|cs| - 1].Y &&
     Index(cs[|cs| - 1].X, cs[|cs| - 1].Y, cols) == |cs| - 1)
  }

  /** In a row-major layout, cell `j` lies inside a row and has row-major index `j`. */
  lemma {:induction false} RowMajorAt(cs: seq<Cell>, cols: int, j: int)
    requires RowMajor(cs, cols) && 0 <= j < |cs|
    ensures 0 <= cs[j].X < cols && 0 <= cs[j].Y && Index(cs[j].X, cs[j].Y, cols) == j
  {
    if j < |cs| - 1 {
      RowMajorAt(cs[..|cs| - 1], cols, j);
    }
  }

  /** Appending the cell whose row-major index is the current length keeps the row-major layout. */
  lemma RowMajorAppend(cs: seq<Cell>, c: Cell, cols: int)
    requires RowMajor(cs, cols)
    requires 0 <= c.X < cols && 0 <= c.Y && Index(c.X, c.Y, cols) == |cs|
    ensures RowMajor(cs + [c], cols)
  {
    assert (cs + [c])[..|cs|] == cs;
  }

  /** Appending the cells of row `y`, left to right, to the first `y` rows keeps the row-major layout. */
  lemma {:induction false} RowMajorAppendRow(cs: seq<Cell>, row: seq<Cell>, cols: int, y: int)
    requires RowMajor(cs, cols) && |cs| == CellCount(cols, y) && 0 <= y
    requires forall j :: 0 <= j < |row| ==> row[j].X == j < cols && row[j].Y == y
    ensures RowMajor(cs + row, cols)
  {
    if row != [] {
      var init := row[..|row| - 1];
      RowMajorAppendRow(cs, init, cols, y);
      assert cs + row == (cs + init) + [row[|row| - 1]];
      RowMajorAppend(cs + init, row[|row| - 1], cols);
    } else {
      assert cs + row == cs;
    }
  }

  /**
   * In a row-major layout every cell sits at the index of its own position;
   * so no cell object occurs twice, since no two indices share a position.
   */
  lemma RowMajorPlaced(cs: seq<Cell>, cols: int)
    requires RowMajor(cs, cols)
    ensures forall j :: 0 <= j < |cs| ==> 0 <= cs[j].X < cols && 0 <= cs[j].Y && Index(cs[j].X, cs[j].Y, cols) == j
  {
    forall j | 0 <= j < |cs|
      ensures 0 <= cs[j].X < cols && 0 <= cs[j].Y && Index(cs[j].X, cs[j].Y, cols) == j
    {
      RowMajorAt(cs, cols, j);
    }
  }

  /** `a` lies in the 8-neighbourhood of `c`: at most one step away on each axis, and not at `c`'s own position. */
  predicate Adjacent(a: Cell, c: Cell)
  {
    -1 <= a.X - c.X <= 1 && -1 <= a.Y - c.Y <= 1 && !(a.X == c.X && a.Y == c.Y)
  }

  /** The bomb cells of `cs`, in the order they occur in `cs`. */
  function Bombs(cs: seq<Cell>): seq<Cell>
  {
    if cs == [] then []
    else Bombs(cs[..|cs| - 1]) + (if cs[|cs| - 1].bomb then [cs[|cs| - 1]] else [])
  }

  /** How many bomb cells of `cs` lie in the 8-neighbourhood of `c`. */
  function NeighbourBombs(cs: seq<Cell>, c: Cell): nat
  {
    if cs == [] then 0
    else
      NeighbourBombs(cs[..|cs| - 1], c)
      + (if cs[|cs| - 1].bomb && Adjacent(cs[|cs| - 1], c) then 1 else 0)
  }

  /** Appending a cell appends it to the bomb list exactly when it is a bomb. */
  lemma BombsAppend(cs: seq<Cell>, c: Cell)
    ensures Bombs(cs + [c]) == Bombs(cs) + if c.bomb then [c] else []
  {
    assert (cs + [c])[..|cs|] == cs;
  }

  /** The bomb list of a concatenation is the concatenation of the bomb lists. */
  lemma {:induction false} BombsConcat(cs: seq<Cell>, ds: seq<Cell>)
    ensures Bombs(cs + ds) == Bombs(cs) + Bombs(ds)
  {
    if ds != [] {
      var init := ds[..|ds| - 1];
      BombsConcat(cs, init);
      assert (cs + ds)[..|cs + ds| - 1] == cs + init;
      assert (cs + ds)[|cs + ds| - 1] == ds[|ds| - 1];
    } else {
      assert cs + ds == cs;
    }
  }

  /** Extending a prefix of `cs` by one element adds that element's count. */
  lemma NeighbourBombsPrefix(cs: seq<Cell>, i: int, c: Cell)
    requires 0 <= i < |cs|
    ensures NeighbourBombs(cs[..i + 1], c) ==
      NeighbourBombs(cs[..i], c) + if cs[i].bomb && Adjacent(cs[i], c) then 1 else 0
  {
    assert cs[..i + 1][..i] == cs[..i];
  }

  /** The bomb list holds exactly the bomb cells of the cell list. */
  lemma {:induction false} BombsMembership(cs: seq<Cell>)
    ensures forall d :: d in Bombs(cs) <==> d in cs && d.bomb
  {
    if cs != [] {
      var init := cs[..|cs| - 1];
      BombsMembership(init);
      assert cs == init + [cs[|cs| - 1]];
    }
  }

  lemma BombElement(cs: seq<Cell>, i: int)
    requires 0 <= i < |Bombs(cs)|
    ensures Bombs(cs)[i] in cs
  {
    BombsMembership(cs);
    assert Bombs(cs)[i] in Bombs(cs);
  }

  /**
   * When the cells of `cs` are in strictly increasing row-major order (so each
   * occurs once), so are the cells of its bomb list.
   */
  lemma {:induction false} BombsOrdered(cs: seq<Cell>, cols: int)
    requires forall i, j :: 0 <= i < j < |cs| ==> Index(cs[i].X, cs[i].Y, cols) < Index(cs[j].X, cs[j].Y, cols)
    ensures forall i, j :: 0 <= i < j < |Bombs(cs)| ==> Index(Bombs(cs)[i].X, Bombs(cs)[i].Y, cols) < Index(Bombs(cs)[j].X, Bombs(cs)[j].Y, cols)
  {
    if cs != [] {
      var init := cs[..|cs| - 1];
      var last := cs[|cs| - 1];
      BombsOrdered(init, cols);
      BombsMembership(init);
      var b := Bombs(cs);
      forall i, j | 0 <= i < j < |b|
        ensures Index(b[i].X, b[i].Y, cols) < Index(b[j].X, b[j].Y, cols)
      {
        if j == |Bombs(init)| {
          var d := Bombs(init)[i];
          assert b[i] == d && b[j] == last;
          BombElement(init, i);
          var k :| 0 <= k < |init| && init[k] == d;
          assert cs[k] == d;
        } else {
          assert b[i] == Bombs(init)[i] && b[j] == Bombs(init)[j];
        }
      }
    }
  }

  /** Counting neighbouring bombs over the bomb list gives the same number as counting over all cells. */
  lemma {:induction false} BombsNeighbourCount(cs: seq<Cell>, c: Cell)
    ensures NeighbourBombs(Bombs(cs), c) == NeighbourBombs(cs, c)
  {
    if cs != [] {
      var init := cs[..|cs| - 1];
      var last := cs[|cs| - 1];
      BombsNeighbourCount(init, c);
      if last.bomb {
        var b := Bombs(cs);
        assert b == Bombs(init) + [last];
        assert b[..|b| - 1] == Bombs(init);
      } else {
        assert Bombs(cs) == Bombs(init);
      }
    }
  }

  /** Number of `true` entries; the flood fill's termination measure counts hidden cells with it. */
  function CountTrue(s: seq<bool>): nat
  {
    if s == [] then 0 else (if s[0] then 1 else 0) + CountTrue(s[1..])
  }

  /** Clearing one `true` entry lowers the count by exactly one. */
  lemma {:induction false} CountTrueClear(s: seq<bool>, j: int)
    requires 0 <= j < |s| && s[j]
    ensures CountTrue(s[j := false]) == CountTrue(s) - 1
  {
    if j == 0 {
      assert s[j := false][1..] == s[1..];
    } else {
      assert s[j := false][1..] == s[1..][j - 1 := false];
      CountTrueClear(s[1..], j - 1);
    }
  }
}
