/**
 * `Game::refine_line` (src/game.rs): intersect the leftmost and the
 * rightmost placement of a line. A cell owned by the same segment in both
 * becomes Filled; a cell unowned in both, with both placements having passed
 * the same number of segments, becomes Empty; every other cell keeps its value.
 */
module LineRefiner {
  import opened Wrappers
  import opened LineMatcher
  import opened Windows
  import opened LeftPlacer
  import opened RightPlacer
  import opened Extremes

  /** The refined line, whether every cell was forced, and whether any cell changed. */
  datatype Refinement = Refinement(line: Line, solved: bool, changed: bool)

  /**
   * The counter refine_line keeps for one placement at cell i: the number of
   * times, up to i, that an owned cell is followed by an unowned one.
   */
  function NextSegment(p: Placement, i: nat): nat
    requires i < |p|
  {
    if i == 0 then 0
    else NextSegment(p, i - 1) + (if p[i - 1].Some? && p[i].None? then 1 else 0)
  }

  /** Cell i is decided by the two placements: same owner in both, or the same gap in both. */
  predicate Forced(left: Placement, right: Placement, i: nat)
    requires i < |left| && i < |right|
  {
    (left[i].Some? && left[i] == right[i]) ||
    (left[i].None? && right[i].None? && NextSegment(left, i) == NextSegment(right, i))
  }

  /** The value refine_line gives cell i. */
  function RefinedCell(left: Placement, right: Placement, line: Line, i: nat): Square
    requires i < |line| && i < |left| && i < |right|
  {
    if left[i].Some? && left[i] == right[i] then Filled
    else if left[i].None? && right[i].None? && NextSegment(left, i) == NextSegment(right, i) then Empty
    else line[i]
  }

  /** `b` is `a` with some Unknown cells decided: no known cell of `a` is changed or forgotten. */
  predicate Refines(a: Line, b: Line) {
    |a| == |b| && forall x :: 0 <= x < |a| && a[x] != Unknown ==> b[x] == a[x]
  }

  /** Deciding cells never adds an Unknown cell, and deciding at least one removes one. */
  lemma {:induction false} RefinesCount(a: Line, b: Line)
    requires Refines(a, b)
    ensures CountUnknown(b) <= CountUnknown(a)
    ensures a != b ==> CountUnknown(b) < CountUnknown(a)
    decreases |a|
  {
    if a != [] {
      assert Refines(a[1..], b[1..]);
      RefinesCount(a[1..], b[1..]);
      if a != b && a[1..] == b[1..] {
        assert a[0] != b[0];
      }
    }
  }

  /**
   * With two placements that agree with the line, the refined cells never
   * contradict a known cell: a Filled cell is owned in both placements, so
   * it is never made Empty, and an Empty cell is owned in neither, so it is
   * never made Filled.
   */
  lemma RefineSound(line: Line, left: Placement, right: Placement)
    requires Agrees(line, left) && Agrees(line, right)
    ensures Refines(line, seq(|line|, i requires 0 <= i < |line| => RefinedCell(left, right, line, i)))
  {
  }

  /**
   * When every cell is forced, the Filled cells of the refined line are
   * exactly the windows of the leftmost placement, so the line is complete
   * and its runs are the hint.
   */
  lemma SolvedMatches(hint: Hint, line: Line, r: Line)
    requires LeftPlacement(hint, line).Some? && RightPlacement(hint, line).Some?
    requires |r| == |line|
    requires forall i :: 0 <= i < |line| ==>
      Forced(LeftPlacement(hint, line).value, RightPlacement(hint, line).value, i) &&
      r[i] == RefinedCell(LeftPlacement(hint, line).value, RightPlacement(hint, line).value, line, i)
    ensures NoUnknown(r) && Runs(r) == hint
  {
    var left := LeftPlacement(hint, line).value;
    LeftPlacementShape(hint, line);
    var s := RecPlaceLeft(hint, 0, line, 0).value;
    LabelsOfOrdered(hint, s, |line|);
    forall x | 0 <= x < |r|
      ensures r[x] == Filled <==> Covered(hint, s, x)
    {
      if left[x].Some? {
        assert InWindow(hint, s, left[x].value, x);
      }
    }
    RunsOfWindows(r, hint, s);
  }

  /**
   * The cell loop of refine_line, given the two placements: it returns the
   * refined cells, whether every cell was forced and whether any changed.
   */
  method RefineCells(line: Line, left: Placement, right: Placement) returns (newLine: Line, solved: bool, changed: bool)
    requires |left| == |line| && |right| == |line|
    ensures |newLine| == |line|
    ensures forall i :: 0 <= i < |line| ==> newLine[i] == RefinedCell(left, right, line, i)
    ensures solved <==> forall i :: 0 <= i < |line| ==> Forced(left, right, i)
    ensures changed <==> newLine != line
  {
    newLine := line;
    solved, changed := true, false;
    var leftNextSeg, rightNextSeg := 0, 0;
    for i := 0 to |line|
      invariant |newLine| == |line|
      invariant forall y :: 0 <= y < i ==> newLine[y] == RefinedCell(left, right, line, y)
      invariant forall y :: i <= y < |line| ==> newLine[y] == line[y]
      invariant solved <==> forall y :: 0 <= y < i ==> Forced(left, right, y)
      invariant changed <==> exists y :: 0 <= y < i && newLine[y] != line[y]
      invariant i > 0 ==> leftNextSeg == NextSegment(left, i - 1) && rightNextSeg == NextSegment(right, i - 1)
      invariant i == 0 ==> leftNextSeg == 0 && rightNextSeg == 0
    {
      if i > 0 && left[i - 1].Some? && left[i].None? {
        leftNextSeg := leftNextSeg + 1;
      }
      if i > 0 && right[i - 1].Some? && right[i].None? {
        rightNextSeg := rightNextSeg + 1;
      }
      assert leftNextSeg == NextSegment(left, i) && rightNextSeg == NextSegment(right, i);
      if left[i].Some? && left[i] == right[i] {
        if newLine[i] != Filled {
          changed := true;
        }
        newLine := newLine[i := Filled];
      } else if left[i].None? && right[i].None? && leftNextSeg == rightNextSeg {
        if newLine[i] != Empty {
          changed := true;
        }
        newLine := newLine[i := Empty];
      } else {
        assert !Forced(left, right, i);
        solved := false;
      }
    }
    if changed {
      var y :| 0 <= y < |line| && newLine[y] != line[y];
    }
  }

  /**
   * What the counter means: at cell i of the picture of ordered windows, it
   * is the number of segments whose window ends at or before i, so two
   * placements with equal counters at an unowned cell leave it in the gap
   * before the same next segment.
   */
  lemma {:induction false} NextSegmentCounts(hint: Hint, s: seq<nat>, n: nat, i: nat)
    requires Ordered(hint, s, n) && Positive(hint) && i < n
    ensures forall j :: 0 <= j < |s| ==> (j < NextSegment(Labels(hint, s, n), i) <==> s[j] + hint[j] <= i)
    decreases i
  {
    if i > 0 {
      NextSegmentCounts(hint, s, n, i - 1);
      WindowEndsAt(hint, s, n, i);
      OrderedPairwise(hint, s, n);
      var p := Labels(hint, s, n);
      var c := NextSegment(p, i - 1);
      if p[i - 1].Some? && p[i].None? {
        var a := p[i - 1].value;
        var end, start := if c < |s| then s[c] + hint[c] else 0, s[a];
        assert a <= c || end < start;
        assert a == c;
      }
    }
  }

  /**
   * A window ends just before cell i exactly when cell i - 1 is owned and
   * cell i is not; the owner of cell i - 1 is then that window.
   */
  lemma WindowEndsAt(hint: Hint, s: seq<nat>, n: nat, i: nat)
    requires Ordered(hint, s, n) && Positive(hint) && 0 < i < n
    ensures var p := Labels(hint, s, n);
      if p[i - 1].Some? && p[i].None? then p[i - 1].value < |s| && s[p[i - 1].value] + hint[p[i - 1].value] == i
      else forall j :: 0 <= j < |s| ==> s[j] + hint[j] != i
  {
    var p := Labels(hint, s, n);
    LabelOfOrdered(hint, s, n, i - 1);
    LabelOfOrdered(hint, s, n, i);
    OrderedPairwise(hint, s, n);
    if p[i - 1].Some? && p[i].None? {
      var a := p[i - 1].value;
      assert InWindow(hint, s, a, i - 1);
      assert !InWindow(hint, s, a, i);
    } else {
      forall j | 0 <= j < |s|
        ensures s[j] + hint[j] != i
      {
        assert InWindow(hint, s, j, s[j] + hint[j] - 1);
      }
    }
  }

  /**
   * Every cell refine_line decides agrees with every completion of the line:
   * a cell made Filled is covered by the completion's windows, a cell made
   * Empty is not. The completion's starts lie between the leftmost and the
   * rightmost ones, segment by segment.
   */
  lemma RefinedCellSound(hint: Hint, line: Line, u: seq<nat>, x: nat)
    requires ValidStarts(hint, line, u) && x < |line|
    ensures LeftPlacement(hint, line).Some? && RightPlacement(hint, line).Some?
    ensures var c := RefinedCell(LeftPlacement(hint, line).value, RightPlacement(hint, line).value, line, x);
      (c == Filled ==> Covered(hint, u, x)) && (c == Empty ==> !Covered(hint, u, x))
  {
    var n := |line|;
    ValidStartsIff(hint, line, u);
    LeftmostBelow(hint, line, u);
    LeftPlacementShape(hint, line);
    var s := RecPlaceLeft(hint, 0, line, 0).value;
    var r := RightmostAbove(hint, line, u);
    var left, right := LeftPlacement(hint, line).value, RightPlacement(hint, line).value;
    LabelsOfOrdered(hint, s, n);
    LabelsOfOrdered(hint, r, n);
    if left[x].Some? && left[x] == right[x] {
      var j := left[x].value;
      assert InWindow(hint, s, j, x) && InWindow(hint, r, j, x);
      assert InWindow(hint, u, j, x);
    } else if left[x].None? && right[x].None? && NextSegment(left, x) == NextSegment(right, x) {
      NextSegmentCounts(hint, s, n, x);
      NextSegmentCounts(hint, r, n, x);
      var k := NextSegment(left, x);
      forall j | 0 <= j < |u|
        ensures !InWindow(hint, u, j, x)
      {
        if j >= k {
          assert !InWindow(hint, s, j, x);
        }
      }
    }
  }

  /** A completion of a refined line is a completion of the line it refines. */
  lemma SolutionOfRefinement(hint: Hint, a: Line, b: Line, u: seq<nat>)
    requires Refines(a, b) && ValidStarts(hint, b, u)
    ensures ValidStarts(hint, a, u)
  {
    ValidStartsIff(hint, b, u);
    assert forall j, x :: InWindow(hint, u, j, x) ==> 0 <= x < |b| && b[x] != Empty;
    ValidStartsIff(hint, a, u);
  }

  /**
   * refine_line loses no completion and adds none: the refined line has
   * exactly the completions of the input line.
   */
  lemma RefineKeepsCompletions(hint: Hint, line: Line, u: seq<nat>)
    requires LeftPlacement(hint, line).Some? && RightPlacement(hint, line).Some?
    requires Agrees(line, LeftPlacement(hint, line).value) && Agrees(line, RightPlacement(hint, line).value)
    ensures var left, right := LeftPlacement(hint, line).value, RightPlacement(hint, line).value;
      var refined := seq(|line|, i requires 0 <= i < |line| => RefinedCell(left, right, line, i));
      ValidStarts(hint, line, u) <==> ValidStarts(hint, refined, u)
  {
    var left, right := LeftPlacement(hint, line).value, RightPlacement(hint, line).value;
    var refined := seq(|line|, i requires 0 <= i < |line| => RefinedCell(left, right, line, i));
    RefineSound(line, left, right);
    if ValidStarts(hint, line, u) {
      ValidStartsIff(hint, line, u);
      forall x | 0 <= x < |line|
        ensures (refined[x] == Filled ==> Covered(hint, u, x)) && (refined[x] == Empty ==> !Covered(hint, u, x))
      {
        RefinedCellSound(hint, line, u, x);
      }
      forall j, x | InWindow(hint, u, j, x)
        ensures 0 <= x < |refined| && refined[x] != Empty
      {
        assert Covered(hint, u, x);
      }
      ValidStartsIff(hint, refined, u);
    }
    if ValidStarts(hint, refined, u) {
      SolutionOfRefinement(hint, line, refined, u);
    }
  }

  /** `c` is a finished line whose runs are the hint and which keeps every known cell of `line`. */
  predicate Completes(hint: Hint, line: Line, c: Line) {
    Refines(line, c) && NoUnknown(c) && Runs(c) == hint
  }

  /** The runs of such a finished line give a valid start vector for `line` that draws exactly it. */
  lemma CompletionStarts(hint: Hint, line: Line, c: Line)
    requires Completes(hint, line, c)
    ensures ValidStarts(hint, line, RunStarts(c, 0))
    ensures forall x :: 0 <= x < |c| ==> (c[x] == Filled <==> Covered(hint, RunStarts(c, 0), x))
  {
    var s := RunStarts(c, 0);
    assert Ordered(hint, s, |line|) && Positive(hint) by {
      RunStartsCover(c);
    }
    assert Solution(hint, line, s) by {
      RunStartsCover(c);
      forall j, x | InWindow(hint, s, j, x)
        ensures 0 <= x < |line| && line[x] != Empty
      {
        assert Covered(hint, s, x);
        assert c[x] == Filled;
      }
      forall x | 0 <= x < |line| && line[x] == Filled
        ensures Covered(hint, s, x)
      {
        assert c[x] == Filled;
      }
    }
    ValidStartsIff(hint, line, s);
    RunStartsCover(c);
  }

  /**
   * Every finished line that matches the hint and the known cells survives
   * refinement: the line has placements, and the refined line still keeps
   * to it. In particular a line with such a completion is never reported
   * as having no placement.
   */
  lemma RefineKeepsCompleteLines(hint: Hint, line: Line, c: Line)
    requires Completes(hint, line, c)
    ensures LeftPlacement(hint, line).Some? && RightPlacement(hint, line).Some?
    ensures var left, right := LeftPlacement(hint, line).value, RightPlacement(hint, line).value;
      Completes(hint, seq(|line|, i requires 0 <= i < |line| => RefinedCell(left, right, line, i)), c)
  {
    CompletionStarts(hint, line, c);
    var u := RunStarts(c, 0);
    PlacementsAgree(hint, line);
    var left, right := LeftPlacement(hint, line).value, RightPlacement(hint, line).value;
    forall x | 0 <= x < |line|
      ensures RefinedCell(left, right, line, x) != Unknown ==> c[x] == RefinedCell(left, right, line, x)
    {
      RefinedCellSound(hint, line, u, x);
    }
  }

  /** Both placements exist exactly when the line can be completed, and then both agree with it. */
  lemma PlacementsAgree(hint: Hint, line: Line)
    ensures LeftPlacement(hint, line).Some? <==> Satisfiable(hint, line)
    ensures RightPlacement(hint, line).Some? <==> Satisfiable(hint, line)
    ensures LeftPlacement(hint, line).Some? ==> Agrees(line, LeftPlacement(hint, line).value)
    ensures RightPlacement(hint, line).Some? ==> Agrees(line, RightPlacement(hint, line).value)
  {
    LeftPlacementShape(hint, line);
    RightPlacementShape(hint, line);
    if RightPlacement(hint, line).Some? {
      RightAgrees(hint, line);
    }
  }

  /**
   * The value `Game::refine_line` computes: None where either placement is
   * missing (the source's two `expect` panics), otherwise the rule applied to
   * every cell, whether every cell was forced, and whether the line changed.
   */
  function Refined(line: Line, hint: Hint): (r: Option<Refinement>)
    ensures r.None? <==> !Satisfiable(hint, line)
    ensures r.Some? ==> |r.value.line| == |line| && (r.value.changed <==> r.value.line != line)
  {
    PlacementsAgree(hint, line);
    var leftSol, rightSol := LeftPlacement(hint, line), RightPlacement(hint, line);
    if leftSol.None? || rightSol.None? then None
    else
      var left, right := leftSol.value, rightSol.value;
      var newLine := seq(|line|, i requires 0 <= i < |line| => RefinedCell(left, right, line, i));
      Some(Refinement(newLine, forall i :: 0 <= i < |line| ==> Forced(left, right, i), newLine != line))
  }

  /**
   * A line with exactly one completion is finished by one call of
   * refine_line: every cell is forced, so the line is reported solved, and
   * it becomes that completion.
   */
  lemma UniqueCompletionSolved(hint: Hint, line: Line, u: seq<nat>)
    requires ValidStarts(hint, line, u)
    requires forall v :: ValidStarts(hint, line, v) ==> v == u
    ensures Refined(line, hint).Some? && Refined(line, hint).value.solved
    ensures forall x :: 0 <= x < |line| ==>
      Refined(line, hint).value.line[x] == if Covered(hint, u, x) then Filled else Empty
  {
    UniqueCompletion(hint, line, u);
    ValidStartsIff(hint, line, u);
    var p := Labels(hint, u, |line|);
    LabelsOfOrdered(hint, u, |line|);
    forall x | 0 <= x < |line|
      ensures Forced(p, p, x) && RefinedCell(p, p, line, x) == if Covered(hint, u, x) then Filled else Empty
    {
    }
  }

  /**
   * Game::refine_line. The two `expect`s become the None result: it is
   * returned exactly when the line has no placement at all.
   */
  method RefineLine(line: Line, hint: Hint) returns (res: Option<Refinement>)
    ensures res == Refined(line, hint)
    ensures res.None? <==> !Satisfiable(hint, line)
    ensures res.Some? ==>
      LeftPlacement(hint, line).Some? && RightPlacement(hint, line).Some? &&
      var left, right := LeftPlacement(hint, line).value, RightPlacement(hint, line).value;
      var r := res.value;
      |r.line| == |line| &&
      (forall i :: 0 <= i < |line| ==> r.line[i] == RefinedCell(left, right, line, i)) &&
      (r.solved <==> forall i :: 0 <= i < |line| ==> Forced(left, right, i)) &&
      (r.changed <==> r.line != line)
    ensures res.Some? ==> Refines(line, res.value.line)
    ensures res.Some? ==> forall u :: ValidStarts(hint, line, u) <==> ValidStarts(hint, res.value.line, u)
    ensures forall c :: Completes(hint, line, c) ==> res.Some? && Completes(hint, res.value.line, c)
    ensures res.Some? ==> (res.value.changed ==> CountUnknown(res.value.line) < CountUnknown(line))
    ensures res.Some? && res.value.solved ==> NoUnknown(res.value.line) && Runs(res.value.line) == hint
  {
    PlacementsAgree(hint, line);
    var leftSol := PlaceAllLeft(hint, line);
    var rightSol := PlaceAllRight(hint, line);
    forall c | Completes(hint, line, c)
      ensures Satisfiable(hint, line)
    {
      CompletionStarts(hint, line, c);
    }
    if leftSol.None? || rightSol.None? {
      return None;
    }
    var left, right := leftSol.value, rightSol.value;
    var newLine, solved, changed := RefineCells(line, left, right);
    RefineSound(line, left, right);
    assert newLine == seq(|line|, i requires 0 <= i < |line| => RefinedCell(left, right, line, i));
    if solved {
      SolvedMatches(hint, line, newLine);
    }
    RefinesCount(line, newLine);
    forall u
      ensures ValidStarts(hint, line, u) <==> ValidStarts(hint, newLine, u)
    {
      RefineKeepsCompletions(hint, line, u);
    }
    forall c | Completes(hint, line, c)
      ensures Completes(hint, newLine, c)
    {
      RefineKeepsCompleteLines(hint, line, c);
    }
    res := Some(Refinement(newLine, solved, changed));
  }
}
