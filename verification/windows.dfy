/**
 * Placements of a hint's segments on a line, seen as windows: segment j
 * occupies the cells s[j] .. s[j] + hint[j] - 1. This module relates the
 * windows to the run decomposition used by `Game::check_line`.
 */
module Windows {
  import opened LineMatcher

  /** Window j of the start vector `s` covers cell `x`. */
  predicate InWindow(hint: Hint, s: seq<nat>, j: int, x: int) {
    0 <= j < |s| && j < |hint| && s[j] <= x < s[j] + hint[j]
  }

  /** Some window of `s` covers cell `x`. */
  ghost predicate Covered(hint: Hint, s: seq<nat>, x: int) {
    exists j :: InWindow(hint, s, j, x)
  }

  /**
   * One start per segment, every window inside a line of length `n`, and the
   * windows in hint order with at least one cell between neighbours.
   */
  predicate Ordered(hint: Hint, s: seq<nat>, n: nat) {
    |s| == |hint| &&
    (forall j :: 0 <= j < |s| ==> s[j] + hint[j] <= n) &&
    (forall j :: 0 < j < |s| ==> s[j - 1] + hint[j - 1] < s[j])
  }

  /** Ordered windows that avoid the Empty cells of `line`. */
  ghost predicate Placed(hint: Hint, line: Line, s: seq<nat>) {
    Ordered(hint, s, |line|) &&
    forall j, x :: InWindow(hint, s, j, x) ==> 0 <= x < |line| && line[x] != Empty
  }

  /** A placement that also covers every Filled cell of `line`: a completion of the line. */
  ghost predicate Solution(hint: Hint, line: Line, s: seq<nat>) {
    Placed(hint, line, s) &&
    forall x :: 0 <= x < |line| && line[x] == Filled ==> Covered(hint, s, x)
  }

  /** Ordered windows are separated pairwise, not only neighbour by neighbour. */
  lemma {:induction false} OrderedPairwise(hint: Hint, s: seq<nat>, n: nat)
    requires Ordered(hint, s, n)
    ensures forall i, j :: 0 <= i < j < |s| ==> s[i] + hint[i] < s[j]
  {
    forall i, j | 0 <= i < j < |s|
      ensures s[i] + hint[i] < s[j]
    {
      OrderedChain(hint, s, n, i, j);
    }
  }

  lemma {:induction false} OrderedChain(hint: Hint, s: seq<nat>, n: nat, i: nat, j: nat)
    requires Ordered(hint, s, n) && i < j < |s|
    ensures s[i] + hint[i] < s[j]
    decreases j - i
  {
    if i + 1 < j {
      OrderedChain(hint, s, n, i + 1, j);
    }
  }

  /**
   * When the Filled cells of `L` are exactly the cells covered by ordered
   * windows of positive lengths, the runs of `L` are the hint.
   */
  lemma RunsOfWindows(L: Line, hint: Hint, s: seq<nat>)
    requires Ordered(hint, s, |L|) && Positive(hint)
    requires forall x :: 0 <= x < |L| ==> (L[x] == Filled <==> Covered(hint, s, x))
    ensures Runs(L) == hint
  {
    OrderedPairwise(hint, s, |L|);
    RunsOfWindowsFrom(L, hint, s, 0, 0);
    assert L[0..] == L;
  }

  /** The start of every maximal run of Filled cells of `L` from cell i on, left to right. */
  function RunStarts(L: Line, i: nat): seq<nat>
    requires i <= |L|
    decreases |L| - i
  {
    if i == |L| then []
    else if L[i] != Filled then RunStarts(L, i + 1)
    else [i] + RunStarts(L, i + Lead(L[i..]))
  }

  /**
   * The runs of a line read as windows: started at RunStarts and sized by
   * Runs, they are ordered, start at i or later, and cover exactly the
   * Filled cells from i on.
   */
  ghost predicate RunsDrawn(L: Line, i: nat)
    requires i <= |L|
  {
    var s, h := RunStarts(L, i), Runs(L[i..]);
    Ordered(h, s, |L|) && (forall j :: 0 <= j < |s| ==> i <= s[j]) &&
    forall x :: i <= x < |L| ==> (L[x] == Filled <==> Covered(h, s, x))
  }

  lemma {:induction false} RunStartsFrom(L: Line, i: nat)
    requires i <= |L|
    ensures RunsDrawn(L, i)
    decreases |L| - i
  {
    if i < |L| {
      if L[i] != Filled {
        RunsSkip(L, i);
        RunStartsFrom(L, i + 1);
      } else {
        RunStartsFrom(L, i + Lead(L[i..]));
        RunStartsFilled(L, i);
      }
    }
  }

  /** The step of RunStartsFrom at the start of a run: one window for the run, then the rest. */
  lemma RunStartsFilled(L: Line, i: nat)
    requires i < |L| && L[i] == Filled
    requires RunsDrawn(L, i + Lead(L[i..]))
    ensures RunsDrawn(L, i)
  {
    var n := Lead(L[i..]);
    RunAt(L, i);
    DrawCons(L, i, n, RunStarts(L, i + n), Runs(L[i + n..]));
  }

  /** At the start of a run, both RunStarts and Runs take that run first. */
  lemma RunAt(L: Line, i: nat)
    requires i < |L| && L[i] == Filled
    ensures var n := Lead(L[i..]);
      0 < n && i + n <= |L| &&
      (forall x :: i <= x < i + n ==> L[x] == Filled) &&
      (i + n == |L| || L[i + n] != Filled) &&
      RunStarts(L, i) == [i] + RunStarts(L, i + n) &&
      Runs(L[i..]) == [n] + Runs(L[i + n..])
  {
    var n := Lead(L[i..]);
    RunsLead(L[i..], n);
    assert L[i..][n..] == L[i + n..];
    forall x | i <= x < i + n
      ensures L[x] == Filled
    {
      assert L[i..][x - i] == Filled;
    }
    assert i + n == |L| || L[i..][n] == L[i + n];
  }

  /**
   * A run of n Filled cells at i, ended by a cell that is not Filled, in
   * front of windows that draw the rest of the line: one more window at i
   * draws the line from i on.
   */
  lemma DrawCons(L: Line, i: nat, n: nat, s: seq<nat>, h: Hint)
    requires 0 < n && i + n <= |L| && Positive(h)
    requires forall x :: i <= x < i + n ==> L[x] == Filled
    requires i + n == |L| || L[i + n] != Filled
    requires Ordered(h, s, |L|) && forall j :: 0 <= j < |s| ==> i + n <= s[j]
    requires forall x :: i + n <= x < |L| ==> (L[x] == Filled <==> Covered(h, s, x))
    ensures Ordered([n] + h, [i] + s, |L|)
    ensures forall j :: 0 <= j < |s| + 1 ==> i <= ([i] + s)[j]
    ensures forall x :: i <= x < |L| ==> (L[x] == Filled <==> Covered([n] + h, [i] + s, x))
  {
    var s2, h2 := [i] + s, [n] + h;
    if |s| > 0 {
      assert InWindow(h, s, 0, s[0]);
    }
    OrderedCons(h, s, |L|, i, n);
    forall j | 0 <= j < |s2|
      ensures i <= s2[j]
    {
      if j > 0 {
        assert s2[j] == s[j - 1];
      }
    }
    forall x | i <= x < |L|
      ensures L[x] == Filled <==> Covered(h2, s2, x)
    {
      if x < i + n {
        assert InWindow(h2, s2, 0, x);
      } else {
        CoveredCons(h, s, i, n, x);
      }
    }
  }

  /** Past the end of a window put in front, a cell is covered exactly when the other windows cover it. */
  lemma CoveredCons(h: Hint, s: seq<nat>, i: nat, n: nat, x: nat)
    requires |s| == |h| && i + n <= x
    ensures Covered([n] + h, [i] + s, x) <==> Covered(h, s, x)
  {
    var h2, s2 := [n] + h, [i] + s;
    if Covered(h, s, x) {
      var j :| InWindow(h, s, j, x);
      assert InWindow(h2, s2, j + 1, x);
    }
    if Covered(h2, s2, x) {
      var j :| InWindow(h2, s2, j, x);
      assert InWindow(h, s, j - 1, x);
    }
  }

  /** A window of n cells at i, ending before the first of some ordered windows, can be put in front of them. */
  lemma OrderedCons(h: Hint, s: seq<nat>, len: nat, i: nat, n: nat)
    requires Ordered(h, s, len) && i + n <= len
    requires |s| > 0 ==> i + n < s[0]
    ensures Ordered([n] + h, [i] + s, len)
  {
    var h2, s2 := [n] + h, [i] + s;
    forall j | 0 < j < |s2|
      ensures s2[j - 1] + h2[j - 1] < s2[j]
    {
      if j > 1 {
        assert s2[j - 1] == s[j - 2] && s2[j] == s[j - 1];
      }
    }
  }

  /** Every line is drawn by the windows of its own runs. */
  lemma RunStartsCover(L: Line)
    ensures Ordered(Runs(L), RunStarts(L, 0), |L|)
    ensures forall x :: 0 <= x < |L| ==> (L[x] == Filled <==> Covered(Runs(L), RunStarts(L, 0), x))
  {
    RunStartsFrom(L, 0);
    assert L[0..] == L;
    assert RunsDrawn(L, 0);
  }

  /** A cell between the end of window j - 1 and the start of window j is covered by no window. */
  lemma GapNotCovered(hint: Hint, s: seq<nat>, j: nat, a: nat)
    requires |s| == |hint| && j <= |s|
    requires forall i, k :: 0 <= i < k < |s| ==> s[i] + hint[i] < s[k]
    requires j < |s| ==> a < s[j]
    requires 0 < j ==> s[j - 1] + hint[j - 1] <= a
    ensures !Covered(hint, s, a)
  {
  }

  /** The run that starts at window j has exactly the length hint[j]. */
  lemma WindowRun(L: Line, hint: Hint, s: seq<nat>, j: nat)
    requires Ordered(hint, s, |L|)
    requires forall i, k :: 0 <= i < k < |s| ==> s[i] + hint[i] < s[k]
    requires forall x :: 0 <= x < |L| ==> (L[x] == Filled <==> Covered(hint, s, x))
    requires j < |s|
    ensures Lead(L[s[j]..]) == hint[j]
  {
    var t := L[s[j]..];
    forall x | 0 <= x < hint[j]
      ensures t[x] == Filled
    {
      assert InWindow(hint, s, j, s[j] + x);
    }
    var e := s[j] + hint[j];
    if e < |L| {
      if j + 1 < |s| {
        GapNotCovered(hint, s, j + 1, e);
      } else {
        GapNotCovered(hint, s, |s|, e);
      }
      assert t[hint[j]] == L[e];
    }
    LeadExact(t, hint[j]);
  }

  lemma {:induction false} RunsOfWindowsFrom(L: Line, hint: Hint, s: seq<nat>, j: nat, a: nat)
    requires Ordered(hint, s, |L|) && Positive(hint)
    requires forall i, k :: 0 <= i < k < |s| ==> s[i] + hint[i] < s[k]
    requires forall x :: 0 <= x < |L| ==> (L[x] == Filled <==> Covered(hint, s, x))
    requires j <= |s| && a <= |L|
    requires j < |s| ==> a <= s[j]
    requires 0 < j ==> s[j - 1] + hint[j - 1] <= a
    ensures Runs(L[a..]) == hint[j..]
    decreases |L| - a
  {
    if a == |L| {
      assert L[a..] == [];
    } else if j == |s| || a < s[j] {
      GapRuns(L, hint, s, j, a);
      RunsOfWindowsFrom(L, hint, s, j, a + 1);
    } else {
      var h := hint[j];
      WindowRuns(L, hint, s, j);
      RunsOfWindowsFrom(L, hint, s, j + 1, a + h);
      assert hint[j..] == [h] + hint[j + 1..];
    }
  }

  /** A cell in the gap before window j adds no run. */
  lemma GapRuns(L: Line, hint: Hint, s: seq<nat>, j: nat, a: nat)
    requires |s| == |hint| && j <= |s| && a < |L|
    requires forall i, k :: 0 <= i < k < |s| ==> s[i] + hint[i] < s[k]
    requires forall x :: 0 <= x < |L| ==> (L[x] == Filled <==> Covered(hint, s, x))
    requires j < |s| ==> a < s[j]
    requires 0 < j ==> s[j - 1] + hint[j - 1] <= a
    ensures Runs(L[a..]) == Runs(L[a + 1..])
  {
    GapNotCovered(hint, s, j, a);
    RunsSkip(L, a);
  }

  /** Window j starts a run of exactly hint[j] cells. */
  lemma WindowRuns(L: Line, hint: Hint, s: seq<nat>, j: nat)
    requires Ordered(hint, s, |L|) && Positive(hint)
    requires forall i, k :: 0 <= i < k < |s| ==> s[i] + hint[i] < s[k]
    requires forall x :: 0 <= x < |L| ==> (L[x] == Filled <==> Covered(hint, s, x))
    requires j < |s|
    ensures Runs(L[s[j]..]) == [hint[j]] + Runs(L[s[j] + hint[j]..])
  {
    var a, h := s[j], hint[j];
    WindowRun(L, hint, s, j);
    RunsLead(L[a..], h);
    assert L[a..][h..] == L[a + h..];
  }

  /** Ordered windows that are Filled in `L` hold at least Sum(hint) Filled cells. */
  lemma {:induction false} CountAtLeast(L: Line, hint: Hint, s: seq<nat>, j: nat, b: nat)
    requires Ordered(hint, s, |L|)
    requires forall i, x :: InWindow(hint, s, i, x) ==> L[x] == Filled
    requires j <= |s| && b <= |L|
    requires j < |s| ==> b <= s[j]
    ensures CountFilled(L[b..]) >= Sum(hint[j..])
    decreases |s| - j
  {
    if j < |s| {
      var e := s[j] + hint[j];
      assert L[b..] == L[b..s[j]] + (L[s[j]..e] + L[e..]);
      CountFilledAppend(L[b..s[j]], L[s[j]..e] + L[e..]);
      CountFilledAppend(L[s[j]..e], L[e..]);
      forall x | 0 <= x < hint[j]
        ensures L[s[j]..e][x] == Filled
      {
        assert InWindow(hint, s, j, s[j] + x);
      }
      CountFilledAllFilled(L[s[j]..e]);
      CountAtLeast(L, hint, s, j + 1, e);
      assert hint[j..][1..] == hint[j + 1..];
    }
  }

  /** One more Filled cell outside the windows makes the count exceed Sum(hint). */
  lemma {:induction false} CountStrict(L: Line, hint: Hint, s: seq<nat>, j: nat, b: nat, x: nat)
    requires Ordered(hint, s, |L|)
    requires forall i, y :: InWindow(hint, s, i, y) ==> L[y] == Filled
    requires j <= |s| && b <= x < |L| && L[x] == Filled
    requires j < |s| ==> b <= s[j]
    requires forall i :: j <= i < |s| ==> !InWindow(hint, s, i, x)
    ensures CountFilled(L[b..]) >= Sum(hint[j..]) + 1
    decreases |s| - j
  {
    if j == |s| {
      CountFilledPositive(L[b..], x - b);
    } else {
      var e := s[j] + hint[j];
      assert L[b..] == L[b..s[j]] + (L[s[j]..e] + L[e..]);
      CountFilledAppend(L[b..s[j]], L[s[j]..e] + L[e..]);
      CountFilledAppend(L[s[j]..e], L[e..]);
      forall y | 0 <= y < hint[j]
        ensures L[s[j]..e][y] == Filled
      {
        assert InWindow(hint, s, j, s[j] + y);
      }
      CountFilledAllFilled(L[s[j]..e]);
      assert hint[j..][1..] == hint[j + 1..];
      if x < s[j] {
        CountFilledPositive(L[b..s[j]], x - b);
        CountAtLeast(L, hint, s, j + 1, e);
      } else {
        assert !InWindow(hint, s, j, x);
        CountStrict(L, hint, s, j + 1, e, x);
      }
    }
  }

  /**
   * If ordered windows are Filled in `L` and the runs of `L` are the hint,
   * then no Filled cell of `L` lies outside the windows.
   */
  lemma NoStrayFilled(L: Line, hint: Hint, s: seq<nat>)
    requires Ordered(hint, s, |L|)
    requires forall i, x :: InWindow(hint, s, i, x) ==> L[x] == Filled
    requires Runs(L) == hint
    ensures forall x :: 0 <= x < |L| && L[x] == Filled ==> Covered(hint, s, x)
  {
    forall x | 0 <= x < |L| && L[x] == Filled
      ensures Covered(hint, s, x)
    {
      if !Covered(hint, s, x) {
        assert L[0..] == L;
        CountStrict(L, hint, s, 0, 0, x);
        RunsSum(L);
      }
    }
  }
}
