/**
 * Solver (src/game.rs): repeated passes over every unsolved row and then
 * every unsolved column, refining each line in turn, until every line is
 * solved or a whole pass changes nothing.
 */
module PuzzleSolver {
  import opened Wrappers
  import opened LineMatcher
  import opened LeftPlacer
  import opened LineRefiner
  import opened Grid

  /**
   * How Solver::solve ends. The source returns normally when every line is
   * solved and panics otherwise: `Stuck` is the "can't be solved completely"
   * panic after a pass that changed nothing, `NoPlacement` the panic inside
   * refine_line when a line admits no placement.
   */
  datatype Outcome = Solved | Stuck | NoPlacement

  /** A line that is complete and whose runs are its hint. */
  predicate LineDone(hint: Hint, line: Line) {
    NoUnknown(line) && Runs(line) == hint
  }

  predicate AllSet(flags: seq<bool>) {
    forall i :: 0 <= i < |flags| ==> flags[i]
  }

  /** The board is a finished picture: every row and every column is done. */
  predicate SolvesPuzzle(rowHints: seq<Hint>, colHints: seq<Hint>, g: seq<Line>) {
    Rectangular(g, |rowHints|, |colHints|) &&
    (forall r :: 0 <= r < |rowHints| ==> LineDone(rowHints[r], g[r])) &&
    (forall c :: 0 <= c < |colHints| ==> LineDone(colHints[c], Column(g, c)))
  }

  /** A rectangular board with one flag per line, where every flagged line is done. */
  predicate FlagsHold(rowHints: seq<Hint>, colHints: seq<Hint>, g: seq<Line>, solvedRows: seq<bool>, solvedCols: seq<bool>) {
    Rectangular(g, |rowHints|, |colHints|) &&
    |solvedRows| == |rowHints| && |solvedCols| == |colHints| &&
    (forall i :: 0 <= i < |solvedRows| && solvedRows[i] ==> LineDone(rowHints[i], g[i])) &&
    (forall c :: 0 <= c < |solvedCols| && solvedCols[c] ==> LineDone(colHints[c], Column(g, c)))
  }

  /** Every solution of the puzzle that board g refines, board h refines too. */
  ghost predicate KeepsSolutions(rowHints: seq<Hint>, colHints: seq<Hint>, g: seq<Line>, h: seq<Line>) {
    forall S :: SolvesPuzzle(rowHints, colHints, S) && RefinesGrid(g, S) ==> RefinesGrid(h, S)
  }

  /** Keeping the solutions of a board is transitive along a chain of boards. */
  lemma KeepsSolutionsTrans(rowHints: seq<Hint>, colHints: seq<Hint>, f: seq<Line>, g: seq<Line>, h: seq<Line>)
    requires KeepsSolutions(rowHints, colHints, f, g) && KeepsSolutions(rowHints, colHints, g, h)
    ensures KeepsSolutions(rowHints, colHints, f, h)
  {
  }

  /** refine_line leaves the line as it is and does not report it solved. */
  predicate LineStuck(hint: Hint, line: Line) {
    Refined(line, hint) == Some(Refinement(line, false, false))
  }

  /** Row i of a solution that the board refines is a completion of the board's row i. */

  lemma RowOfSolution(rowHints: seq<Hint>, colHints: seq<Hint>, g: seq<Line>, S: seq<Line>, i: nat)
    requires Rectangular(g, |rowHints|, |colHints|) && i < |rowHints|
    requires SolvesPuzzle(rowHints, colHints, S) && RefinesGrid(g, S)
    ensures Completes(rowHints[i], g[i], S[i])
  {
  }

  /** Column c of a solution that the board refines is a completion of the board's column c. */
  lemma ColumnOfSolution(rowHints: seq<Hint>, colHints: seq<Hint>, g: seq<Line>, S: seq<Line>, c: nat)
    requires Rectangular(g, |rowHints|, |colHints|) && c < |colHints|
    requires SolvesPuzzle(rowHints, colHints, S) && RefinesGrid(g, S)
    ensures Completes(colHints[c], Column(g, c), Column(S, c))
  {
    forall r | 0 <= r < |g|
      ensures Column(g, c)[r] != Unknown ==> Column(S, c)[r] == Column(g, c)[r]
    {
      assert Refines(g[r], S[r]);
    }
  }

  /**
   * Writing back a refined row i: the flags stay true to the board, the
   * board is refined, a changed row removes an Unknown cell, and no solution
   * of the puzzle is lost.
   */
  lemma RowWriteStep(rowHints: seq<Hint>, colHints: seq<Hint>, g: seq<Line>, solvedRows: seq<bool>, solvedCols: seq<bool>,
                     i: nat, newRow: Line, solved: bool)
    requires FlagsHold(rowHints, colHints, g, solvedRows, solvedCols) && i < |rowHints|
    requires Refines(g[i], newRow) && (solved ==> LineDone(rowHints[i], newRow))
    requires forall c :: Completes(rowHints[i], g[i], c) ==> Completes(rowHints[i], newRow, c)
    ensures var h := g[i := newRow];
      FlagsHold(rowHints, colHints, h, solvedRows[i := solved], solvedCols) &&
      RefinesGrid(g, h) && KeepsSolutions(rowHints, colHints, g, h) &&
      GridUnknowns(h) + (if newRow != g[i] then 1 else 0) <= GridUnknowns(g)
  {
    var h := g[i := newRow];
    RowWriteRefines(g, i, newRow);
    RefinesGridCount(g, h);
    forall c | 0 <= c < |colHints| && solvedCols[c]
      ensures Column(h, c) == Column(g, c)
    {
      KnownColumnKept(g, h, c);
    }
    forall S | SolvesPuzzle(rowHints, colHints, S) && RefinesGrid(g, S)
      ensures RefinesGrid(h, S)
    {
      RowOfSolution(rowHints, colHints, g, S, i);
    }
  }

  /** Writing back a refined column i, as RowWriteStep for rows. */
  lemma ColumnWriteStep(rowHints: seq<Hint>, colHints: seq<Hint>, g: seq<Line>, solvedRows: seq<bool>, solvedCols: seq<bool>,
                        i: nat, newCol: Line, solved: bool)
    requires FlagsHold(rowHints, colHints, g, solvedRows, solvedCols) && i < |colHints|
    requires Refines(Column(g, i), newCol) && (solved ==> LineDone(colHints[i], newCol))
    requires forall c :: Completes(colHints[i], Column(g, i), c) ==> Completes(colHints[i], newCol, c)
    ensures var h := WithColumn(g, i, newCol);
      FlagsHold(rowHints, colHints, h, solvedRows, solvedCols[i := solved]) &&
      RefinesGrid(g, h) && KeepsSolutions(rowHints, colHints, g, h) &&
      GridUnknowns(h) + (if newCol != Column(g, i) then 1 else 0) <= GridUnknowns(g) &&
      forall c :: 0 <= c < |colHints| ==> Column(h, c) == if c == i then newCol else Column(g, c)
  {
    var h := WithColumn(g, i, newCol);
    ColumnWriteRefines(g, i, newCol);
    RefinesGridCount(g, h);
    forall r | 0 <= r < |rowHints| && solvedRows[r]
      ensures h[r] == g[r]
    {
      KnownRowKept(g, h, r);
    }
    forall c | 0 <= c < |colHints|
      ensures Column(h, c) == if c == i then newCol else Column(g, c)
    {
      ColumnAfterWrite(g, i, newCol, c);
    }
    forall S | SolvesPuzzle(rowHints, colHints, S) && RefinesGrid(g, S)
      ensures RefinesGrid(h, S)
    {
      ColumnOfSolution(rowHints, colHints, g, S, i);
      ColumnWriteKeeps(g, S, i, newCol);
    }
  }

  /**
   * One line of a sweep: a line already marked solved is skipped and stays
   * as it is; any other line becomes what refine_line makes of it, and its
   * flag becomes refine_line's solved verdict.
   */
  predicate LineSwept(hint: Hint, line: Line, marked: bool, newLine: Line, newMarked: bool) {
    if marked then newLine == line && newMarked
    else
      Refined(line, hint).Some? &&
      newLine == Refined(line, hint).value.line && newMarked == Refined(line, hint).value.solved
  }

  /** The row sweep takes board g with row flags `marked` to board h with flags `newMarked`. */
  predicate RowsSwept(rowHints: seq<Hint>, g: seq<Line>, marked: seq<bool>, h: seq<Line>, newMarked: seq<bool>) {
    |g| == |h| == |marked| == |newMarked| == |rowHints| &&
    forall i {:trigger LineSwept(rowHints[i], g[i], marked[i], h[i], newMarked[i])} :: 0 <= i < |g| ==>
      LineSwept(rowHints[i], g[i], marked[i], h[i], newMarked[i])
  }

  /** The column sweep takes board g with column flags `marked` to board h with flags `newMarked`. */
  predicate ColsSwept(colHints: seq<Hint>, g: seq<Line>, marked: seq<bool>, h: seq<Line>, newMarked: seq<bool>) {
    Rectangular(g, |g|, |colHints|) && Rectangular(h, |g|, |colHints|) &&
    |marked| == |newMarked| == |colHints| &&
    forall c {:trigger LineSwept(colHints[c], Column(g, c), marked[c], Column(h, c), newMarked[c])} :: 0 <= c < |colHints| ==>
      LineSwept(colHints[c], Column(g, c), marked[c], Column(h, c), newMarked[c])
  }

  /** The row sweep after its first n rows: those are swept, the others untouched. */
  predicate RowsSweptUpTo(rowHints: seq<Hint>, g: seq<Line>, marked: seq<bool>, h: seq<Line>, newMarked: seq<bool>, n: nat) {
    |g| == |h| == |marked| == |newMarked| == |rowHints| && n <= |g| &&
    (forall i {:trigger LineSwept(rowHints[i], g[i], marked[i], h[i], newMarked[i])} :: 0 <= i < n ==>
      LineSwept(rowHints[i], g[i], marked[i], h[i], newMarked[i])) &&
    (forall i :: n <= i < |g| ==> h[i] == g[i] && newMarked[i] == marked[i])
  }

  /** Sweeping row n, and touching no other row, extends a partial row sweep by one row. */
  lemma RowsSweptStep(rowHints: seq<Hint>, g: seq<Line>, marked: seq<bool>, h: seq<Line>, m: seq<bool>,
                      h': seq<Line>, m': seq<bool>, n: nat)
    requires RowsSweptUpTo(rowHints, g, marked, h, m, n) && n < |g|
    requires |h'| == |h| && |m'| == |m|
    requires forall i :: 0 <= i < |g| && i != n ==> h'[i] == h[i] && m'[i] == m[i]
    requires LineSwept(rowHints[n], h[n], m[n], h'[n], m'[n])
    ensures RowsSweptUpTo(rowHints, g, marked, h', m', n + 1)
    ensures n + 1 == |g| ==> RowsSwept(rowHints, g, marked, h', m')
  {
    assert LineSwept(rowHints[n], g[n], marked[n], h'[n], m'[n]);
    forall i | 0 <= i < n
      ensures LineSwept(rowHints[i], g[i], marked[i], h'[i], m'[i])
    {
      assert LineSwept(rowHints[i], g[i], marked[i], h[i], m[i]);
    }
  }

  /** The column sweep after its first n columns: those are swept, the others untouched. */
  predicate ColsSweptUpTo(colHints: seq<Hint>, g: seq<Line>, marked: seq<bool>, h: seq<Line>, newMarked: seq<bool>, n: nat) {
    Rectangular(g, |g|, |colHints|) && Rectangular(h, |g|, |colHints|) &&
    |marked| == |newMarked| == |colHints| && n <= |colHints| &&
    (forall c {:trigger LineSwept(colHints[c], Column(g, c), marked[c], Column(h, c), newMarked[c])} :: 0 <= c < n ==>
      LineSwept(colHints[c], Column(g, c), marked[c], Column(h, c), newMarked[c])) &&
    (forall c :: n <= c < |colHints| ==> Column(h, c) == Column(g, c) && newMarked[c] == marked[c])
  }

  /** Sweeping column n, and touching no other column, extends a partial column sweep by one column. */
  lemma ColsSweptStep(colHints: seq<Hint>, g: seq<Line>, marked: seq<bool>, h: seq<Line>, m: seq<bool>,
                      h': seq<Line>, m': seq<bool>, n: nat)
    requires ColsSweptUpTo(colHints, g, marked, h, m, n) && n < |colHints|
    requires Rectangular(h', |g|, |colHints|) && |m'| == |m|
    requires forall c :: 0 <= c < |colHints| && c != n ==> Column(h', c) == Column(h, c) && m'[c] == m[c]
    requires LineSwept(colHints[n], Column(h, n), m[n], Column(h', n), m'[n])
    ensures ColsSweptUpTo(colHints, g, marked, h', m', n + 1)
    ensures n + 1 == |colHints| ==> ColsSwept(colHints, g, marked, h', m')
  {
    assert LineSwept(colHints[n], Column(g, n), marked[n], Column(h', n), m'[n]);
    forall c | 0 <= c < n
      ensures LineSwept(colHints[c], Column(g, c), marked[c], Column(h', c), m'[c])
    {
      assert LineSwept(colHints[c], Column(g, c), marked[c], Column(h, c), m[c]);
    }
  }

  /** The row sweep is deterministic: the board and flags it leaves are fixed by the ones it starts from. */
  lemma RowsSweptUnique(rowHints: seq<Hint>, g: seq<Line>, marked: seq<bool>,
                        h1: seq<Line>, m1: seq<bool>, h2: seq<Line>, m2: seq<bool>)
    requires RowsSwept(rowHints, g, marked, h1, m1) && RowsSwept(rowHints, g, marked, h2, m2)
    ensures h1 == h2 && m1 == m2
  {
    forall i | 0 <= i < |g|
      ensures h1[i] == h2[i] && m1[i] == m2[i]
    {
      assert LineSwept(rowHints[i], g[i], marked[i], h1[i], m1[i]);
      assert LineSwept(rowHints[i], g[i], marked[i], h2[i], m2[i]);
    }
  }

  /** The column sweep is deterministic too: a rectangular board is fixed by its columns. */
  lemma ColsSweptUnique(colHints: seq<Hint>, g: seq<Line>, marked: seq<bool>,
                        h1: seq<Line>, m1: seq<bool>, h2: seq<Line>, m2: seq<bool>)
    requires ColsSwept(colHints, g, marked, h1, m1) && ColsSwept(colHints, g, marked, h2, m2)
    ensures h1 == h2 && m1 == m2
  {
    forall c | 0 <= c < |colHints|
      ensures Column(h1, c) == Column(h2, c) && m1[c] == m2[c]
    {
      assert LineSwept(colHints[c], Column(g, c), marked[c], Column(h1, c), m1[c]);
      assert LineSwept(colHints[c], Column(g, c), marked[c], Column(h2, c), m2[c]);
    }
    forall r | 0 <= r < |g|
      ensures h1[r] == h2[r]
    {
      forall c | 0 <= c < |colHints|
        ensures h1[r][c] == h2[r][c]
      {
        assert Column(h1, c)[r] == Column(h2, c)[r];
      }
    }
  }

  class Solver {
    const game: Game
    var solvedRows: seq<bool>
    var solvedCols: seq<bool>

    /** One flag per line, and a flagged line is done on the board. */
    predicate Valid()
      reads this, game
    {
      game.Valid() && FlagsHold(game.rowHints, game.colHints, game.grid, solvedRows, solvedCols)
    }

    /** Solver::new: takes the game, with no line marked solved. */
    constructor (game: Game)
      requires game.Valid()
      ensures Valid() && this.game == game
      ensures solvedRows == seq(game.rows, _ => false) && solvedCols == seq(game.cols, _ => false)
    {
      this.game := game;
      solvedRows := seq(game.rows, _ => false);
      solvedCols := seq(game.cols, _ => false);
    }

    /**
     * One row of the first pass of Solver::solve: refine row i and, when it
     * changed, write it back. None is the panic of a row with no placement.
     * Otherwise the result says whether the row changed, which removes at
     * least one Unknown cell; only the flag of row i may change.
     */
    method RefineRowAt(i: nat) returns (changed: Option<bool>)
      requires Valid() && i < game.rows
      modifies this, game`grid
      ensures Valid() && solvedCols == old(solvedCols)
      ensures changed.None? ==> game.grid == old(game.grid) && solvedRows == old(solvedRows)
      ensures changed.None? ==> !Satisfiable(game.rowHints[i], game.grid[i])
      ensures changed.None? ==> forall S :: SolvesPuzzle(game.rowHints, game.colHints, S) ==> !RefinesGrid(game.grid, S)
      ensures changed.Some? ==> GridUnknowns(game.grid) + (if changed.value then 1 else 0) <= GridUnknowns(old(game.grid))
      ensures RefinesGrid(old(game.grid), game.grid) && KeepsSolutions(game.rowHints, game.colHints, old(game.grid), game.grid)
      ensures |solvedRows| == |old(solvedRows)|
      ensures forall j :: 0 <= j < |solvedRows| && j != i ==> solvedRows[j] == old(solvedRows)[j]
      ensures changed.None? <==> Refined(old(game.grid)[i], game.rowHints[i]).None?
      ensures changed.Some? ==>
        Refined(old(game.grid)[i], game.rowHints[i]).Some? &&
        var r := Refined(old(game.grid)[i], game.rowHints[i]).value;
        game.grid == old(game.grid)[i := r.line] && solvedRows == old(solvedRows)[i := r.solved] &&
        changed.value == r.changed
      ensures changed == Some(false) ==>
        game.grid == old(game.grid) && (!solvedRows[i] ==> LineStuck(game.rowHints[i], game.grid[i]))
      ensures changed.Some? ==> LineSwept(game.rowHints[i], old(game.grid)[i], false, game.grid[i], solvedRows[i])
      ensures changed.Some? ==> (changed.value <==> game.grid != old(game.grid))
      ensures forall j :: 0 <= j < game.rows && j != i ==> game.grid[j] == old(game.grid)[j]
    {
      var (hint, line) := game.GetRow(i);
      forall S | SolvesPuzzle(game.rowHints, game.colHints, S) && RefinesGrid(game.grid, S)
        ensures Completes(hint, line, S[i])
      {
        RowOfSolution(game.rowHints, game.colHints, game.grid, S, i);
      }
      var res := RefineLine(line, hint);
      if res.None? {
        return None;
      }
      var Refinement(newRow, solved, lineChanged) := res.value;
      RowWriteStep(game.rowHints, game.colHints, game.grid, solvedRows, solvedCols, i, newRow, solved);
      solvedRows := solvedRows[i := solved];
      changed := Some(lineChanged);
      if !lineChanged {
        assert game.grid[i := newRow] == game.grid;
        return;
      }
      game.SetRow(i, newRow);
    }

    /** One column of the second pass of Solver::solve, as RefineRowAt for rows. */
    method RefineColAt(i: nat) returns (changed: Option<bool>)
      requires Valid() && i < game.cols
      modifies this, game`grid
      ensures Valid() && solvedRows == old(solvedRows)
      ensures changed.None? ==> game.grid == old(game.grid) && solvedCols == old(solvedCols)
      ensures changed.None? ==> !Satisfiable(game.colHints[i], Column(game.grid, i))
      ensures changed.None? ==> forall S :: SolvesPuzzle(game.rowHints, game.colHints, S) ==> !RefinesGrid(game.grid, S)
      ensures changed.Some? ==> GridUnknowns(game.grid) + (if changed.value then 1 else 0) <= GridUnknowns(old(game.grid))
      ensures RefinesGrid(old(game.grid), game.grid) && KeepsSolutions(game.rowHints, game.colHints, old(game.grid), game.grid)
      ensures |solvedCols| == |old(solvedCols)|
      ensures forall j :: 0 <= j < |solvedCols| && j != i ==> solvedCols[j] == old(solvedCols)[j]
      ensures changed.None? <==> Refined(Column(old(game.grid), i), game.colHints[i]).None?
      ensures changed.Some? ==>
        Refined(Column(old(game.grid), i), game.colHints[i]).Some? &&
        var r := Refined(Column(old(game.grid), i), game.colHints[i]).value;
        game.grid == WithColumn(old(game.grid), i, r.line) && solvedCols == old(solvedCols)[i := r.solved] &&
        changed.value == r.changed
      ensures changed == Some(false) ==>
        game.grid == old(game.grid) && (!solvedCols[i] ==> LineStuck(game.colHints[i], Column(game.grid, i)))
      ensures changed.Some? ==>
        LineSwept(game.colHints[i], Column(old(game.grid), i), false, Column(game.grid, i), solvedCols[i])
      ensures changed.Some? ==> (changed.value <==> game.grid != old(game.grid))
      ensures forall c :: 0 <= c < game.cols && c != i ==> Column(game.grid, c) == Column(old(game.grid), c)
    {
      var (hint, line) := game.GetCol(i);
      forall S | SolvesPuzzle(game.rowHints, game.colHints, S) && RefinesGrid(game.grid, S)
        ensures Completes(hint, line, Column(S, i))
      {
        ColumnOfSolution(game.rowHints, game.colHints, game.grid, S, i);
      }
      var res := RefineLine(line, hint);
      if res.None? {
        return None;
      }
      var Refinement(newCol, solved, lineChanged) := res.value;
      ColumnWriteStep(game.rowHints, game.colHints, game.grid, solvedRows, solvedCols, i, newCol, solved);
      solvedCols := solvedCols[i := solved];
      changed := Some(lineChanged);
      if !lineChanged {
        ColumnWriteRefines(game.grid, i, newCol);
        return;
      }
      game.SetCol(i, newCol);
    }

    /**
     * The row sweep of one iteration of Solver::solve: refine, in order,
     * every row not yet marked solved. None is the panic of a row without a
     * placement; otherwise whether some row changed. A sweep that changed
     * nothing left the board as it was, and every row still unmarked is a
     * fixpoint of refine_line that it does not report solved.
     */
    method RowPass() returns (changed: Option<bool>)
      requires Valid()
      modifies this, game`grid
      ensures Valid() && solvedCols == old(solvedCols)
      ensures |solvedRows| == |old(solvedRows)|
      ensures forall i :: 0 <= i < |solvedRows| && old(solvedRows)[i] ==> solvedRows[i]
      ensures RefinesGrid(old(game.grid), game.grid) && KeepsSolutions(game.rowHints, game.colHints, old(game.grid), game.grid)
      ensures changed.None? ==> exists i :: 0 <= i < game.rows && !Satisfiable(game.rowHints[i], game.grid[i])
      ensures changed.None? ==> forall S :: SolvesPuzzle(game.rowHints, game.colHints, S) ==> !RefinesGrid(game.grid, S)
      ensures changed.Some? ==> GridUnknowns(game.grid) + (if changed.value then 1 else 0) <= GridUnknowns(old(game.grid))
      ensures changed == Some(false) ==> game.grid == old(game.grid)
      ensures changed.Some? ==> RowsSwept(game.rowHints, old(game.grid), old(solvedRows), game.grid, solvedRows)
      ensures changed.Some? ==> (changed.value <==> game.grid != old(game.grid))
      ensures changed == Some(false) ==>
        forall i {:trigger LineStuck(game.rowHints[i], game.grid[i])} :: 0 <= i < game.rows && !solvedRows[i] ==>
          LineStuck(game.rowHints[i], game.grid[i])
    {
      var anyChanged := false;
      for i := 0 to game.rows
        invariant Valid() && solvedCols == old(solvedCols)
        invariant |solvedRows| == |old(solvedRows)|
        invariant forall j :: 0 <= j < |solvedRows| && old(solvedRows)[j] ==> solvedRows[j]
        invariant RefinesGrid(old(game.grid), game.grid)
        invariant KeepsSolutions(game.rowHints, game.colHints, old(game.grid), game.grid)
        invariant GridUnknowns(game.grid) + (if anyChanged then 1 else 0) <= GridUnknowns(old(game.grid))
        invariant anyChanged <==> game.grid != old(game.grid)
        invariant RowsSweptUpTo(game.rowHints, old(game.grid), old(solvedRows), game.grid, solvedRows, i)
        invariant !anyChanged ==>
          forall j {:trigger LineStuck(game.rowHints[j], game.grid[j])} :: 0 <= j < i && !solvedRows[j] ==>
            LineStuck(game.rowHints[j], game.grid[j])
      {
        if solvedRows[i] {
          RowsSweptStep(game.rowHints, old(game.grid), old(solvedRows), game.grid, solvedRows, game.grid, solvedRows, i);
          continue;
        }
        ghost var before, beforeFlags := game.grid, solvedRows;
        var lineChanged := RefineRowAt(i);
        if lineChanged.None? {
          return None;
        }
        RowsSweptStep(game.rowHints, old(game.grid), old(solvedRows), before, beforeFlags, game.grid, solvedRows, i);
        RefinesGridTrans(old(game.grid), before, game.grid);
        KeepsSolutionsTrans(game.rowHints, game.colHints, old(game.grid), before, game.grid);
        if lineChanged.value {
          anyChanged := true;
        }
      }
      changed := Some(anyChanged);
    }

    /** The column sweep of one iteration of Solver::solve, as RowPass for rows. */
    method ColPass() returns (changed: Option<bool>)
      requires Valid()
      modifies this, game`grid
      ensures Valid() && solvedRows == old(solvedRows)
      ensures |solvedCols| == |old(solvedCols)|
      ensures forall c :: 0 <= c < |solvedCols| && old(solvedCols)[c] ==> solvedCols[c]
      ensures RefinesGrid(old(game.grid), game.grid) && KeepsSolutions(game.rowHints, game.colHints, old(game.grid), game.grid)
      ensures changed.None? ==> exists c :: 0 <= c < game.cols && !Satisfiable(game.colHints[c], Column(game.grid, c))
      ensures changed.None? ==> forall S :: SolvesPuzzle(game.rowHints, game.colHints, S) ==> !RefinesGrid(game.grid, S)
      ensures changed.Some? ==> GridUnknowns(game.grid) + (if changed.value then 1 else 0) <= GridUnknowns(old(game.grid))
      ensures changed == Some(false) ==> game.grid == old(game.grid)
      ensures changed.Some? ==> ColsSwept(game.colHints, old(game.grid), old(solvedCols), game.grid, solvedCols)
      ensures changed.Some? ==> (changed.value <==> game.grid != old(game.grid))
      ensures changed == Some(false) ==>
        forall c {:trigger LineStuck(game.colHints[c], Column(game.grid, c))} :: 0 <= c < game.cols && !solvedCols[c] ==>
          LineStuck(game.colHints[c], Column(game.grid, c))
    {
      var anyChanged := false;
      for i := 0 to game.cols
        invariant Valid() && solvedRows == old(solvedRows)
        invariant |solvedCols| == |old(solvedCols)|
        invariant forall c :: 0 <= c < |solvedCols| && old(solvedCols)[c] ==> solvedCols[c]
        invariant RefinesGrid(old(game.grid), game.grid)
        invariant KeepsSolutions(game.rowHints, game.colHints, old(game.grid), game.grid)
        invariant GridUnknowns(game.grid) + (if anyChanged then 1 else 0) <= GridUnknowns(old(game.grid))
        invariant anyChanged <==> game.grid != old(game.grid)
        invariant ColsSweptUpTo(game.colHints, old(game.grid), old(solvedCols), game.grid, solvedCols, i)
        invariant !anyChanged ==>
          forall c {:trigger LineStuck(game.colHints[c], Column(game.grid, c))} :: 0 <= c < i && !solvedCols[c] ==>
            LineStuck(game.colHints[c], Column(game.grid, c))
      {
        if solvedCols[i] {
          ColsSweptStep(game.colHints, old(game.grid), old(solvedCols), game.grid, solvedCols, game.grid, solvedCols, i);
          continue;
        }
        ghost var before, beforeFlags := game.grid, solvedCols;
        var lineChanged := RefineColAt(i);
        if lineChanged.None? {
          return None;
        }
        ColsSweptStep(game.colHints, old(game.grid), old(solvedCols), before, beforeFlags, game.grid, solvedCols, i);
        RefinesGridTrans(old(game.grid), before, game.grid);
        KeepsSolutionsTrans(game.rowHints, game.colHints, old(game.grid), before, game.grid);
        if lineChanged.value {
          anyChanged := true;
        }
      }
      changed := Some(anyChanged);
    }

    /**
     * One iteration of the loop of Solver::solve: the row sweep, then the
     * column sweep. None is the panic of a line without a placement;
     * otherwise whether some line changed. An iteration that changed
     * nothing leaves every line still unmarked a fixpoint of refine_line.
     */
    method Pass() returns (changed: Option<bool>)
      requires Valid()
      modifies this, game`grid
      ensures Valid()
      ensures |solvedRows| == |old(solvedRows)| && |solvedCols| == |old(solvedCols)|
      ensures forall i :: 0 <= i < |solvedRows| && old(solvedRows)[i] ==> solvedRows[i]
      ensures forall c :: 0 <= c < |solvedCols| && old(solvedCols)[c] ==> solvedCols[c]
      ensures RefinesGrid(old(game.grid), game.grid) && KeepsSolutions(game.rowHints, game.colHints, old(game.grid), game.grid)
      ensures changed.None? ==>
        (exists i :: 0 <= i < game.rows && !Satisfiable(game.rowHints[i], game.grid[i])) ||
        (exists c :: 0 <= c < game.cols && !Satisfiable(game.colHints[c], Column(game.grid, c)))
      ensures changed.None? ==> forall S :: SolvesPuzzle(game.rowHints, game.colHints, S) ==> !RefinesGrid(game.grid, S)
      ensures changed.Some? ==> GridUnknowns(game.grid) + (if changed.value then 1 else 0) <= GridUnknowns(old(game.grid))
      ensures changed.Some? ==>
        exists mid :: RowsSwept(game.rowHints, old(game.grid), old(solvedRows), mid, solvedRows) &&
          ColsSwept(game.colHints, mid, old(solvedCols), game.grid, solvedCols)
      ensures changed.Some? ==> (changed.value <==> game.grid != old(game.grid))
      ensures changed == Some(false) ==>
        (forall i {:trigger LineStuck(game.rowHints[i], game.grid[i])} :: 0 <= i < game.rows && !solvedRows[i] ==>
           LineStuck(game.rowHints[i], game.grid[i])) &&
        (forall c {:trigger LineStuck(game.colHints[c], Column(game.grid, c))} :: 0 <= c < game.cols && !solvedCols[c] ==>
           LineStuck(game.colHints[c], Column(game.grid, c)))
    {
      var rowsChanged := RowPass();
      if rowsChanged.None? {
        return None;
      }
      ghost var afterRows := game.grid;
      var colsChanged := ColPass();
      if colsChanged.None? {
        return None;
      }
      RefinesGridTrans(old(game.grid), afterRows, game.grid);
      KeepsSolutionsTrans(game.rowHints, game.colHints, old(game.grid), afterRows, game.grid);
      assert RowsSwept(game.rowHints, old(game.grid), old(solvedRows), afterRows, solvedRows);
      changed := Some(rowsChanged.value || colsChanged.value);
    }

    /**
     * Solver::solve. Every pass only decides Unknown cells, so the board
     * refines the one it started from and keeps every solution that board
     * had; a solved flag is never cleared; a pass that changed something
     * removed at least one Unknown cell, which bounds the number of passes;
     * and the solver gives up only after a pass that changed nothing, when
     * every line still unmarked is a fixpoint of refine_line.
     */
    method Solve() returns (outcome: Outcome)
      requires Valid()
      modifies this, game`grid
      ensures Valid()
      ensures RefinesGrid(old(game.grid), game.grid)
      ensures |solvedRows| == |old(solvedRows)| && |solvedCols| == |old(solvedCols)|
      ensures forall i :: 0 <= i < |solvedRows| && old(solvedRows)[i] ==> solvedRows[i]
      ensures forall c :: 0 <= c < |solvedCols| && old(solvedCols)[c] ==> solvedCols[c]
      ensures outcome == Solved <==> AllSet(solvedRows) && AllSet(solvedCols)
      ensures outcome == Solved ==> SolvesPuzzle(game.rowHints, game.colHints, game.grid)
      ensures outcome == NoPlacement ==>
        (exists i :: 0 <= i < game.rows && !Satisfiable(game.rowHints[i], game.grid[i])) ||
        (exists c :: 0 <= c < game.cols && !Satisfiable(game.colHints[c], Column(game.grid, c)))
      ensures outcome == Stuck ==>
        (forall i {:trigger LineStuck(game.rowHints[i], game.grid[i])} :: 0 <= i < game.rows && !solvedRows[i] ==>
           LineStuck(game.rowHints[i], game.grid[i])) &&
        (forall c {:trigger LineStuck(game.colHints[c], Column(game.grid, c))} :: 0 <= c < game.cols && !solvedCols[c] ==>
           LineStuck(game.colHints[c], Column(game.grid, c)))
      ensures forall S :: SolvesPuzzle(game.rowHints, game.colHints, S) && RefinesGrid(old(game.grid), S) ==>
        outcome != NoPlacement && RefinesGrid(game.grid, S)
      ensures outcome == Solved ==>
        forall S :: SolvesPuzzle(game.rowHints, game.colHints, S) && RefinesGrid(old(game.grid), S) ==> S == game.grid
    {
      while true
        invariant Valid()
        invariant RefinesGrid(old(game.grid), game.grid)
        invariant KeepsSolutions(game.rowHints, game.colHints, old(game.grid), game.grid)
        invariant |solvedRows| == |old(solvedRows)| && |solvedCols| == |old(solvedCols)|
        invariant forall i :: 0 <= i < |solvedRows| && old(solvedRows)[i] ==> solvedRows[i]
        invariant forall c :: 0 <= c < |solvedCols| && old(solvedCols)[c] ==> solvedCols[c]
        decreases GridUnknowns(game.grid)
      {
        ghost var passStart := game.grid;
        var changed := Pass();
        if changed.None? {
          return NoPlacement;
        }
        RefinesGridTrans(old(game.grid), passStart, game.grid);
        KeepsSolutionsTrans(game.rowHints, game.colHints, old(game.grid), passStart, game.grid);
        if AllSet(solvedRows) && AllSet(solvedCols) {
          forall S | SolvesPuzzle(game.rowHints, game.colHints, S) && RefinesGrid(old(game.grid), S)
            ensures S == game.grid
          {
            CompleteGridKept(game.grid, S);
          }
          return Solved;
        }
        if !changed.value {
          return Stuck;
        }
      }
    }
  }
}
