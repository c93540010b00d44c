/**
 * Cells, lines and hints, and the run matcher `Game::check_line`
 * (src/game.rs): a line matches a hint when the lengths of its maximal runs
 * of Filled cells, read left to right, are exactly the hint.
 */
module LineMatcher {

  /** The state of one cell of the grid. */
  datatype Square = Unknown | Filled | Empty

  /** Lengths of the filled segments of a row or column, in order. */
  type Hint = seq<nat>

  /** One row or column of the grid. */
  type Line = seq<Square>

  /** Every hint entry is positive, as the lengths of real runs are. */
  predicate Positive(hint: Hint) {
    forall j :: 0 <= j < |hint| ==> hint[j] > 0
  }

  /** A line of `n` Filled cells. */
  function Block(n: nat): (b: Line)
    ensures |b| == n
  {
    seq(n, _ => Filled)
  }

  /** Number of Filled cells at the front of `s`: the length of its first run when `s` starts with one. */
  function Lead(s: Line): (n: nat)
    ensures n <= |s|
    ensures forall x :: 0 <= x < n ==> s[x] == Filled
    ensures n == |s| || s[n] != Filled
  {
    if s == [] || s[0] != Filled then 0 else 1 + Lead(s[1..])
  }

  /** The run-length decomposition of the Filled cells of `s`. */
  function Runs(s: Line): (r: Hint)
    ensures Positive(r)
    decreases |s|
  {
    if s == [] then []
    else if s[0] != Filled then Runs(s[1..])
    else
      var n := Lead(s);
      [n] + Runs(s[n..])
  }

  /** Number of Filled cells in `s`. */
  function CountFilled(s: Line): nat {
    if s == [] then 0 else (if s[0] == Filled then 1 else 0) + CountFilled(s[1..])
  }

  function Sum(h: Hint): nat {
    if h == [] then 0 else h[0] + Sum(h[1..])
  }

  /** Number of Unknown cells in `s`. */
  function CountUnknown(s: Line): nat {
    if s == [] then 0 else (if s[0] == Unknown then 1 else 0) + CountUnknown(s[1..])
  }

  predicate NoUnknown(s: Line) {
    forall x :: 0 <= x < |s| ==> s[x] != Unknown
  }

  lemma {:induction false} CountFilledAppend(a: Line, b: Line)
    ensures CountFilled(a + b) == CountFilled(a) + CountFilled(b)
    decreases |a|
  {
    if a == [] {
      assert a + b == b;
    } else {
      assert (a + b)[1..] == a[1..] + b;
      CountFilledAppend(a[1..], b);
    }
  }

  /** A line made only of Filled cells has all its cells counted. */
  lemma {:induction false} CountFilledAllFilled(s: Line)
    requires forall x :: 0 <= x < |s| ==> s[x] == Filled
    ensures CountFilled(s) == |s|
    decreases |s|
  {
    if s != [] {
      CountFilledAllFilled(s[1..]);
    }
  }

  /** A line holding a Filled cell has a positive count. */
  lemma {:induction false} CountFilledPositive(s: Line, x: nat)
    requires x < |s| && s[x] == Filled
    ensures CountFilled(s) >= 1
    decreases |s|
  {
    if x > 0 {
      CountFilledPositive(s[1..], x - 1);
    }
  }

  /** The runs of a line account for every one of its Filled cells. */
  lemma {:induction false} RunsSum(s: Line)
    ensures Sum(Runs(s)) == CountFilled(s)
    decreases |s|
  {
    if s == [] {
    } else if s[0] != Filled {
      RunsSum(s[1..]);
    } else {
      var n := Lead(s);
      assert s == s[..n] + s[n..];
      CountFilledAppend(s[..n], s[n..]);
      CountFilledAllFilled(s[..n]);
      RunsSum(s[n..]);
      assert Runs(s) == [n] + Runs(s[n..]);
      assert ([n] + Runs(s[n..]))[1..] == Runs(s[n..]);
    }
  }

  /** The empty hint matches exactly the lines without a Filled cell. */
  lemma {:induction false} RunsEmptyIff(s: Line)
    ensures Runs(s) == [] <==> forall x :: 0 <= x < |s| ==> s[x] != Filled
    decreases |s|
  {
    if s != [] {
      RunsEmptyIff(s[1..]);
      if s[0] != Filled {
        assert forall x :: 1 <= x < |s| ==> s[x] == s[1..][x - 1];
      }
    }
  }

  /** A line that starts with a run of `n` Filled cells has that run first. */
  lemma RunsLead(s: Line, n: nat)
    requires n > 0 && Lead(s) == n
    ensures Runs(s) == [n] + Runs(s[n..])
  {
  }

  /** Skipping a cell that is not Filled does not change the runs. */
  lemma RunsSkip(s: Line, i: nat)
    requires i < |s| && s[i] != Filled
    ensures Runs(s[i..]) == Runs(s[i + 1..])
  {
    assert s[i..][1..] == s[i + 1..];
  }

  /** Lead is the length of the maximal Filled prefix, whatever way that prefix is described. */
  lemma LeadExact(s: Line, n: nat)
    requires n <= |s|
    requires forall x :: 0 <= x < n ==> s[x] == Filled
    requires n == |s| || s[n] != Filled
    ensures Lead(s) == n
  {
  }

  /** A block of `n` Filled cells followed by a cell that is not Filled forms one run of length `n`. */
  lemma RunsAfterBlock(n: nat, r: Line)
    requires r == [] || r[0] != Filled
    ensures Runs(Block(n) + r) == (if n == 0 then [] else [n]) + Runs(r)
  {
    var s := Block(n) + r;
    if n == 0 {
      assert s == r;
    } else {
      assert forall x :: 0 <= x < n ==> s[x] == Filled;
      LeadExact(s, n);
      assert s[n..] == r;
    }
  }

  /** The runs ahead of the scan do not change when a Filled cell moves into the current run. */
  lemma ScanFilled(current: nat, line: Line, i: nat)
    requires i < |line| && line[i] == Filled
    ensures Runs(Block(current) + line[i..]) == Runs(Block(current + 1) + line[i + 1..])
  {
    assert Block(current) + line[i..] == Block(current + 1) + line[i + 1..];
  }

  /** A cell that is not Filled closes the current run, if there is one. */
  lemma ScanOther(current: nat, line: Line, i: nat)
    requires i < |line| && line[i] != Filled
    ensures Runs(Block(current) + line[i..])
         == (if current == 0 then [] else [current]) + Runs(Block(0) + line[i + 1..])
  {
    RunsAfterBlock(current, line[i..]);
    RunsSkip(line, i);
    assert Block(0) + line[i + 1..] == line[i + 1..];
  }

  /** At the end of the line the current run, if any, is the last one. */
  lemma ScanEnd(current: nat, line: Line)
    ensures Runs(Block(current) + line[|line|..]) == (if current == 0 then [] else [current])
  {
    RunsAfterBlock(current, []);
    assert Block(current) + line[|line|..] == Block(current) + [];
  }

  /**
   * Game::check_line: scan the line, counting the current run of Filled
   * cells and pushing it when a cell that is not Filled (or the end) closes it.
   */
  method CheckLine(hint: Hint, line: Line) returns (ok: bool)
    ensures ok <==> Runs(line) == hint
  {
    var segments: Hint := [];
    var current: nat := 0;
    assert Block(0) + line[0..] == line;
    for i := 0 to |line|
      invariant segments + Runs(Block(current) + line[i..]) == Runs(line)
    {
      if line[i] == Filled {
        ScanFilled(current, line, i);
        current := current + 1;
      } else {
        ScanOther(current, line, i);
        if current != 0 {
          segments := segments + [current];
        }
        current := 0;
      }
    }
    ScanEnd(current, line);
    if current != 0 {
      segments := segments + [current];
    }
    ok := segments == hint;
  }
}
