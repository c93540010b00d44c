/**
 * The puzzle board of src/game.rs: the two hint lists and a grid of rows,
 * with row and column accessors. The grid is a sequence of rows that the
 * setters reassign.
 */
module Grid {
  import opened LineMatcher
  import opened LineRefiner

  /** Every one of the `rows` rows holds `cols` cells. */
  predicate Rectangular(g: seq<Line>, rows: nat, cols: nat) {
    |g| == rows && forall r :: 0 <= r < |g| ==> |g[r]| == cols
  }

  /** Column c of a grid whose rows all reach past c. */
  function Column(g: seq<Line>, c: nat): (col: Line)
    requires forall r :: 0 <= r < |g| ==> c < |g[r]|
  {
    seq(|g|, r requires 0 <= r < |g| => g[r][c])
  }

  /**
   * The grid after writing `col` down column c: row r takes col[r] for the
   * rows both sequences have, so a short column leaves the lower rows alone.
   */
  function WithColumn(g: seq<Line>, c: nat, col: Line): (h: seq<Line>)
    requires forall r :: 0 <= r < |g| && r < |col| ==> c < |g[r]|
  {
    seq(|g|, r requires 0 <= r < |g| => if r < |col| then g[r][c := col[r]] else g[r])
  }

  /** Unknown cells left on the board. */
  function GridUnknowns(g: seq<Line>): nat {
    if g == [] then 0 else CountUnknown(g[0]) + GridUnknowns(g[1..])
  }

  /** `h` is `g` with some Unknown cells decided, row by row. */
  predicate RefinesGrid(g: seq<Line>, h: seq<Line>) {
    |g| == |h| && forall r :: 0 <= r < |g| ==> Refines(g[r], h[r])
  }

  /**
   * A refined board never has more Unknown cells, and a board that changed
   * has strictly fewer: the measure that ends the solver's loop.
   */
  lemma {:induction false} RefinesGridCount(g: seq<Line>, h: seq<Line>)
    requires RefinesGrid(g, h)
    ensures GridUnknowns(h) <= GridUnknowns(g)
    ensures g != h ==> GridUnknowns(h) < GridUnknowns(g)
    decreases |g|
  {
    if g != [] {
      RefinesCount(g[0], h[0]);
      assert RefinesGrid(g[1..], h[1..]);
      RefinesGridCount(g[1..], h[1..]);
      if g != h && g[1..] == h[1..] {
        assert g[0] != h[0];
      }
    }
  }

  lemma RefinesGridTrans(f: seq<Line>, g: seq<Line>, h: seq<Line>)
    requires RefinesGrid(f, g) && RefinesGrid(g, h)
    ensures RefinesGrid(f, h)
  {
  }

  /** Writing a refinement of row i refines the board, and keeps it rectangular. */
  lemma RowWriteRefines(g: seq<Line>, i: nat, row: Line)
    requires i < |g| && Refines(g[i], row)
    ensures RefinesGrid(g, g[i := row])
    ensures forall rows, cols :: Rectangular(g, rows, cols) ==> Rectangular(g[i := row], rows, cols)
  {
  }

  /**
   * Writing a refinement of column c refines the board, keeps it rectangular,
   * and changes it exactly when the column changed.
   */
  lemma ColumnWriteRefines(g: seq<Line>, c: nat, col: Line)
    requires forall r :: 0 <= r < |g| ==> c < |g[r]|
    requires Refines(Column(g, c), col)
    ensures RefinesGrid(g, WithColumn(g, c, col))
    ensures forall rows, cols :: Rectangular(g, rows, cols) ==> Rectangular(WithColumn(g, c, col), rows, cols)
    ensures WithColumn(g, c, col) == g <==> col == Column(g, c)
  {
    var h := WithColumn(g, c, col);
    forall r | 0 <= r < |g|
      ensures Refines(g[r], h[r])
    {
      assert Column(g, c)[r] == g[r][c];
    }
    if h == g {
      assert forall r :: 0 <= r < |g| ==> col[r] == h[r][c];
    }
    if col == Column(g, c) {
      forall r | 0 <= r < |g|
        ensures h[r] == g[r]
      {
        assert col[r] == g[r][c];
      }
    }
  }

  /** Reading back a column that was just written gives what was written, and every other column is untouched. */
  lemma ColumnAfterWrite(g: seq<Line>, c: nat, col: Line, d: nat)
    requires forall r :: 0 <= r < |g| ==> c < |g[r]| && d < |g[r]|
    requires |col| == |g|
    ensures Column(WithColumn(g, c, col), d) == if d == c then col else Column(g, d)
  {
  }

  /** Writing row i changes, in column d, exactly the cell of row i. */
  lemma ColumnAfterRowWrite(g: seq<Line>, i: nat, row: Line, d: nat)
    requires i < |g| && d < |row|
    requires forall r :: 0 <= r < |g| ==> d < |g[r]|
    ensures Column(g[i := row], d) == Column(g, d)[i := row[d]]
  {
  }

  /**
   * Writing a column that keeps to column c of a board `s` which the grid
   * refines gives a grid that still refines `s`.
   */
  lemma ColumnWriteKeeps(g: seq<Line>, s: seq<Line>, c: nat, col: Line)
    requires RefinesGrid(g, s) && |col| == |g|
    requires forall r :: 0 <= r < |g| ==> c < |g[r]|
    requires Refines(col, Column(s, c))
    ensures RefinesGrid(WithColumn(g, c, col), s)
  {
    forall r | 0 <= r < |g|
      ensures Refines(g[r][c := col[r]], s[r])
    {
      assert Column(s, c)[r] == s[r][c];
    }
  }

  /** A board with no Unknown cell is the only board that refines it. */
  lemma CompleteGridKept(g: seq<Line>, h: seq<Line>)
    requires RefinesGrid(g, h)
    requires forall r :: 0 <= r < |g| ==> NoUnknown(g[r])
    ensures h == g
  {
    forall r | 0 <= r < |g|
      ensures h[r] == g[r]
    {
      KnownRowKept(g, h, r);
    }
  }

  /** A row with no Unknown cell is left as it is by any refinement of the board. */
  lemma KnownRowKept(g: seq<Line>, h: seq<Line>, i: nat)
    requires RefinesGrid(g, h) && i < |g| && NoUnknown(g[i])
    ensures h[i] == g[i]
  {
  }

  /** A column with no Unknown cell is left as it is by any refinement of the board. */
  lemma KnownColumnKept(g: seq<Line>, h: seq<Line>, c: nat)
    requires RefinesGrid(g, h)
    requires forall r :: 0 <= r < |g| ==> c < |g[r]|
    requires NoUnknown(Column(g, c))
    ensures forall r :: 0 <= r < |h| ==> c < |h[r]|
    ensures Column(h, c) == Column(g, c)
  {
    forall r | 0 <= r < |g|
      ensures h[r][c] == g[r][c]
    {
      assert Column(g, c)[r] == g[r][c];
    }
  }

  /** Game: the hints and the board, which the solver refines in place. */
  class Game {
    var rows: nat
    var cols: nat
    var colHints: seq<Hint>
    var rowHints: seq<Hint>
    var grid: seq<Line>

    /** One hint per row and per column, and a rows-by-cols board. */
    predicate Valid()
      reads this
    {
      |rowHints| == rows && |colHints| == cols && Rectangular(grid, rows, cols)
    }

    /** Game::new: the dimensions come from the hint lists and every cell starts Unknown. */
    constructor (colHints: seq<Hint>, rowHints: seq<Hint>)
      ensures Valid()
      ensures this.colHints == colHints && this.rowHints == rowHints
      ensures rows == |rowHints| && cols == |colHints|
      ensures forall r, c :: 0 <= r < rows && 0 <= c < cols ==> grid[r][c] == Unknown
      ensures GridUnknowns(grid) == rows * cols
    {
      this.rows := |rowHints|;
      this.cols := |colHints|;
      this.colHints := colHints;
      this.rowHints := rowHints;
      grid := seq(|rowHints|, _ => seq(|colHints|, _ => Unknown));
      new;
      AllUnknownCount(grid, |rowHints|, |colHints|);
    }

    /** Game::get_row: the hint of row i and its cells. */
    function GetRow(i: nat): (r: (Hint, Line))
      reads this
      requires i < |rowHints| && i < |grid|
      ensures r.0 == rowHints[i] && r.1 == grid[i]
    {
      (rowHints[i], grid[i])
    }

    /** Game::set_row: row i is replaced and nothing else changes. */
    method SetRow(i: nat, row: Line)
      requires i < |grid|
      modifies this`grid
      ensures grid == old(grid)[i := row]
    {
      grid := grid[i := row];
    }

    /** Game::get_col: the hint of column i and the i-th cell of every row, top to bottom. */
    function GetCol(i: nat): (r: (Hint, Line))
      reads this
      requires i < |colHints| && forall k :: 0 <= k < |grid| ==> i < |grid[k]|
      ensures r.0 == colHints[i]
      ensures |r.1| == |grid| && forall k :: 0 <= k < |grid| ==> r.1[k] == grid[k][i]
    {
      (colHints[i], Column(grid, i))
    }

    /**
     * Game::set_col: walks the rows and the new column together, writing
     * cell i of each row, and stops at the shorter of the two.
     */
    method SetCol(i: nat, col: Line)
      requires forall k :: 0 <= k < |grid| && k < |col| ==> i < |grid[k]|
      modifies this`grid
      ensures grid == WithColumn(old(grid), i, col)
    {
      var k := 0;
      while k < |grid| && k < |col|
        invariant k <= |grid| && |grid| == |old(grid)|
        invariant forall j :: 0 <= j < |grid| ==>
          grid[j] == if j < k && j < |col| then old(grid)[j][i := col[j]] else old(grid)[j]
      {
        grid := grid[k := grid[k][i := col[k]]];
        k := k + 1;
      }
    }
  }

  /** A fresh rows-by-cols board of Unknown cells holds rows * cols Unknown cells. */
  lemma {:induction false} AllUnknownCount(g: seq<Line>, rows: nat, cols: nat)
    requires Rectangular(g, rows, cols)
    requires forall r, c :: 0 <= r < rows && 0 <= c < cols ==> g[r][c] == Unknown
    ensures GridUnknowns(g) == rows * cols
    decreases rows
  {
    if rows > 0 {
      AllUnknownLine(g[0]);
      AllUnknownCount(g[1..], rows - 1, cols);
    }
  }

  lemma {:induction false} AllUnknownLine(s: Line)
    requires forall x :: 0 <= x < |s| ==> s[x] == Unknown
    ensures CountUnknown(s) == |s|
    decreases |s|
  {
    if s != [] {
      AllUnknownLine(s[1..]);
    }
  }
}
