/**
 * Worked lines from the line tests of the repository (src/test/line.rs),
 * evaluated on the model: a leftmost placement, a hint too long for its
 * line, and one refinement step that decides a whole line.
 */
module LineExamples {
  import opened Wrappers
  import opened LineMatcher
  import opened Windows
  import opened LeftPlacer
  import opened RightPlacer
  import opened LineRefiner
  import opened Extremes

  /** Hint [3] on "___o_": the only placement covers cells 1..3. */
  lemma LeftOneSegment()
    ensures LeftPlacement([3], [Unknown, Unknown, Unknown, Filled, Unknown])
         == Some([None, Some(0), Some(0), Some(0), None])
  {
    var line := [Unknown, Unknown, Unknown, Filled, Unknown];
    assert PlaceSegmentLeft(3, line, 0) == Some(0);
    var f0 := Fill(line, 0, 3);
    assert f0 == [Filled, Filled, Filled, Filled, Unknown];
    LeadExact(f0, 4);
    RunsLead(f0, 4);
    assert f0[4..] == [Unknown];
    assert Runs(f0) == [4];
    assert RecPlaceLeft([3], 1, f0, 4) == None;
    assert PlaceSegmentLeft(3, line, 1) == Some(1);
    var f1 := Fill(line, 1, 3);
    assert f1 == [Unknown, Filled, Filled, Filled, Unknown];
    LeadExact(f1[1..], 3);
    RunsLead(f1[1..], 3);
    assert f1[1..][3..] == [Unknown];
    assert Runs(f1) == [3];
    assert RecPlaceLeft([3], 1, f1, 5) == Some([]);
    var h: Hint := [3];
    assert h[0] == 3;
    assert [1] + [] == [1];
    assert TryStarts(h, 0, line, 1) == Some([1]);
    assert TryStarts([3], 0, line, 0) == Some([1]);
    assert RecPlaceLeft([3], 0, line, 0) == Some([1]);
    assert Labels([3], [1], 5) == [None, Some(0), Some(0), Some(0), None];
  }

  /** Hint [3] on a line of two cells: no placement. */
  lemma LeftTooLong()
    ensures LeftPlacement([3], [Unknown, Unknown]).None?
    ensures !Satisfiable([3], [Unknown, Unknown])
  {
    SearchLeftmost([3], [Unknown, Unknown]);
  }

  /** Hint [4] on "oooo__": the leftmost placement is cells 0..3. */
  lemma LeftOverlap()
    ensures LeftPlacement([4], [Filled, Filled, Filled, Filled, Unknown, Unknown])
         == Some([Some(0), Some(0), Some(0), Some(0), None, None])
  {
    var line := [Filled, Filled, Filled, Filled, Unknown, Unknown];
    var h: Hint := [4];
    assert h[0] == 4;
    // the first fitting start already gives the hint
    LeadExact(line, 4);
    RunsLead(line, 4);
    assert line[4..] == [Unknown, Unknown];
    assert Runs(line) == [4];
    assert PlaceSegmentLeft(4, line, 0) == Some(0);
    assert Fill(line, 0, 4) == line;
    assert RecPlaceLeft(h, 1, line, 5) == Some([]);
    assert [0] + [] == [0];
    assert TryStarts(h, 0, line, 0) == Some([0]);
    assert Labels(h, [0], 6) == [Some(0), Some(0), Some(0), Some(0), None, None];
  }

  /** On "__oooo", starts 0 and 1 make runs of 6 and 5 cells: the search moves on. */
  lemma ReversedOverlapFails(rl: Line)
    requires rl == [Unknown, Unknown, Filled, Filled, Filled, Filled]
    ensures TryStarts([4], 0, rl, 0) == TryStarts([4], 0, rl, 2)
  {
    var h: Hint := [4];
    assert h[0] == 4;
    var g0 := Fill(rl, 0, 4);
    assert g0 == [Filled, Filled, Filled, Filled, Filled, Filled];
    LeadExact(g0, 6);
    RunsLead(g0, 6);
    assert PlaceSegmentLeft(4, rl, 0) == Some(0);
    assert Runs(g0) != h;
    assert RecPlaceLeft(h, 1, g0, 5) == None;
    var g1 := Fill(rl, 1, 4);
    assert g1 == [Unknown, Filled, Filled, Filled, Filled, Filled];
    LeadExact(g1[1..], 5);
    RunsLead(g1[1..], 5);
    assert Runs(g1) == [5];
    assert PlaceSegmentLeft(4, rl, 1) == Some(1);
    assert Runs(g1) != h;
    assert RecPlaceLeft(h, 1, g1, 6) == None;
  }

  /** On "__oooo", start 2 is the line itself. */
  lemma ReversedOverlapFits(rl: Line)
    requires rl == [Unknown, Unknown, Filled, Filled, Filled, Filled]
    ensures TryStarts([4], 0, rl, 2) == Some([2])
  {
    var h: Hint := [4];
    assert h[0] == 4;
    assert Fill(rl, 2, 4) == rl;
    LeadExact(rl[2..], 4);
    RunsLead(rl[2..], 4);
    assert rl[2..][4..] == [];
    assert Runs(rl) == [4];
    assert PlaceSegmentLeft(4, rl, 2) == Some(2);
    assert RecPlaceLeft(h, 1, rl, 7) == Some([]);
    assert [2] + [] == [2];
  }

  /** The reversed line "__oooo" is searched from the left: starts 0 and 1 give runs too long. */
  lemma ReversedOverlap()
    ensures LeftPlacement([4], [Unknown, Unknown, Filled, Filled, Filled, Filled])
         == Some([None, None, Some(0), Some(0), Some(0), Some(0)])
  {
    var rl := [Unknown, Unknown, Filled, Filled, Filled, Filled];
    ReversedOverlapFails(rl);
    ReversedOverlapFits(rl);
    assert RecPlaceLeft([4], 0, rl, 0) == Some([2]);
    assert Labels([4], [2], 6) == [None, None, Some(0), Some(0), Some(0), Some(0)];
  }

  /** Hint [4] on "oooo__": the rightmost placement is cells 0..3 as well. */
  lemma RightOverlap()
    ensures RightPlacement([4], [Filled, Filled, Filled, Filled, Unknown, Unknown])
         == Some([Some(0), Some(0), Some(0), Some(0), None, None])
  {
    var line := [Filled, Filled, Filled, Filled, Unknown, Unknown];
    var h: Hint := [4];
    assert Rev(line) == [Unknown, Unknown, Filled, Filled, Filled, Filled];
    assert Rev(h) == h;
    ReversedOverlap();
    var q: Placement := [None, None, Some(0), Some(0), Some(0), Some(0)];
    assert LeftPlacement(Rev(h), Rev(line)) == Some(q);
    OverlapReadBack(q);
  }

  /** The labels of the reversed line, read back and renamed. */
  lemma OverlapReadBack(q: Placement)
    requires q == [None, None, Some(0), Some(0), Some(0), Some(0)]
    ensures LabelsBelow(Rev(q), 1)
    ensures Relabel(Rev(q), 1) == [Some(0), Some(0), Some(0), Some(0), None, None]
  {
    assert Rev(q) == [Some(0), Some(0), Some(0), Some(0), None, None];
  }

  /** Hint [4] on "oooo__": both extremes agree on every cell, so the line is solved as "ooooxx". */
  lemma OverlapSolves()
    ensures var line := [Filled, Filled, Filled, Filled, Unknown, Unknown];
            LeftPlacement([4], line).Some? && RightPlacement([4], line).Some? &&
            var left, right := LeftPlacement([4], line).value, RightPlacement([4], line).value;
            |left| == |right| == 6 &&
            (forall i :: 0 <= i < 6 ==> Forced(left, right, i)) &&
            seq(6, i requires 0 <= i < 6 => RefinedCell(left, right, line, i))
              == [Filled, Filled, Filled, Filled, Empty, Empty]
  {
    LeftOverlap();
    RightOverlap();
    var line := [Filled, Filled, Filled, Filled, Unknown, Unknown];
    OverlapCells(LeftPlacement([4], line).value, RightPlacement([4], line).value, line);
  }

  /** With both extremes on cells 0..3, cells 0..3 are forced Filled and cells 4 and 5 Empty. */
  lemma OverlapCells(left: Placement, right: Placement, line: Line)
    requires line == [Filled, Filled, Filled, Filled, Unknown, Unknown]
    requires left == right == [Some(0), Some(0), Some(0), Some(0), None, None]
    ensures forall i :: 0 <= i < 6 ==> Forced(left, right, i)
    ensures seq(6, i requires 0 <= i < 6 => RefinedCell(left, right, line, i))
         == [Filled, Filled, Filled, Filled, Empty, Empty]
  {
    assert NextSegment(left, 1) == 0;
    assert NextSegment(left, 2) == 0;
    assert NextSegment(left, 3) == 0;
    assert NextSegment(left, 4) == 1;
    assert NextSegment(left, 5) == 1;
  }

  /** Two adjacent Filled cells lie in one run of length at least two. */
  lemma {:induction false} AdjacentFilled(s: Line, x: nat)
    requires x + 1 < |s| && s[x] == Filled && s[x + 1] == Filled
    ensures exists j :: 0 <= j < |Runs(s)| && Runs(s)[j] >= 2
    decreases |s|
  {
    if s[0] != Filled {
      RunsSkip(s, 0);
      assert s[0..] == s;
      AdjacentFilled(s[1..], x - 1);
    } else {
      var n := Lead(s);
      RunsLead(s, n);
      if x < n {
        assert Runs(s)[0] >= 2;
      } else {
        AdjacentFilled(s[n..], x - n);
        var j :| 0 <= j < |Runs(s[n..])| && Runs(s[n..])[j] >= 2;
        assert Runs(s)[j + 1] == Runs(s[n..])[j];
      }
    }
  }

  /** "x_x__o_o__" with hint [1, 1, 1, 1]. */
  function CappingLine(): Line {
    [Empty, Unknown, Empty, Unknown, Unknown, Filled, Unknown, Filled, Unknown, Unknown]
  }

  /** One step of reading runs from cell k: a cell that is not Filled adds nothing, an isolated Filled cell a run of one. */
  lemma RunsStep(f: Line, k: nat)
    requires k < |f|
    requires f[k] == Filled ==> k + 1 == |f| || f[k + 1] != Filled
    ensures Runs(f[k..]) == (if f[k] == Filled then [1] else []) + Runs(f[k + 1..])
  {
    assert f[k..][1..] == f[k + 1..];
    if f[k] == Filled {
      LeadExact(f[k..], 1);
    }
  }

  /** The back half of "xoxo_o_o__": cells 5.. hold runs [1, 1]. */
  lemma LeftFilledTail(f: Line)
    requires |f| == 10 && f[5] == f[7] == Filled && f[6] == f[8] == f[9] == Unknown
    ensures Runs(f[5..]) == [1, 1]
  {
    assert f[10..] == [];
    RunsStep(f, 9);
    RunsStep(f, 8);
    RunsStep(f, 7);
    RunsStep(f, 6);
    RunsStep(f, 5);
  }

  /** The leftmost candidate filled in: "xoxo_o_o__" has runs [1, 1, 1, 1]. */
  lemma LeftFilledRuns(f: Line)
    requires |f| == 10 && f[1] == f[3] == f[5] == f[7] == Filled
    requires f[0] == f[2] == Empty && f[4] == f[6] == f[8] == f[9] == Unknown
    ensures Runs(f) == [1, 1, 1, 1]
  {
    LeftFilledTail(f);
    assert Runs(f[4..]) == [1, 1] by { RunsStep(f, 4); }
    assert Runs(f[3..]) == [1, 1, 1] by { RunsStep(f, 3); assert [1] + [1, 1] == [1, 1, 1]; }
    assert Runs(f[2..]) == [1, 1, 1] by { RunsStep(f, 2); }
    assert Runs(f[1..]) == [1, 1, 1, 1] by { RunsStep(f, 1); assert [1] + [1, 1, 1] == [1, 1, 1, 1]; }
    RunsStep(f, 0);
    assert f[0..] == f;
  }

  /** The last segment of the leftmost search: start 7 completes the hint. */
  lemma LeftCappingLast(f: Line)
    requires f == [Empty, Filled, Empty, Filled, Unknown, Filled, Unknown, Filled, Unknown, Unknown]
    ensures TryStarts([1, 1, 1, 1], 3, f, 7) == Some([7])
  {
    var h: Hint := [1, 1, 1, 1];
    assert h[3] == 1;
    assert RecPlaceLeft(h, 4, f, 9) == Some([]) by { LeftFilledRuns(f); }
    assert Fill(f, 7, 1) == f;
    assert PlaceSegmentLeft(1, f, 7) == Some(7);
    assert [7] + [] == [7];
  }

  /** The third segment of the leftmost search goes at 5. */
  lemma LeftCappingThird(f: Line)
    requires f == [Empty, Filled, Empty, Filled, Unknown, Filled, Unknown, Filled, Unknown, Unknown]
    ensures TryStarts([1, 1, 1, 1], 2, f, 5) == Some([5, 7])
  {
    var h: Hint := [1, 1, 1, 1];
    assert h[2] == 1;
    LeftCappingLast(f);
    assert Fill(f, 5, 1) == f;
    assert PlaceSegmentLeft(1, f, 5) == Some(5);
    assert [5] + [7] == [5, 7];
  }

  /** The second segment of the leftmost search goes at 3. */
  lemma LeftCappingSecond(f1: Line)
    requires f1 == [Empty, Filled, Empty, Unknown, Unknown, Filled, Unknown, Filled, Unknown, Unknown]
    ensures TryStarts([1, 1, 1, 1], 1, f1, 3) == Some([3, 5, 7])
  {
    var h: Hint := [1, 1, 1, 1];
    assert h[1] == 1;
    var f := Fill(f1, 3, 1);
    assert f == [Empty, Filled, Empty, Filled, Unknown, Filled, Unknown, Filled, Unknown, Unknown];
    LeftCappingThird(f);
    assert PlaceSegmentLeft(1, f1, 3) == Some(3);
    assert [3] + [5, 7] == [3, 5, 7];
  }

  /** The leftmost search puts the four segments at 1, 3, 5 and 7. */
  lemma LeftCappingStarts(line: Line)
    requires line == CappingLine()
    ensures RecPlaceLeft([1, 1, 1, 1], 0, line, 0) == Some([1, 3, 5, 7])
  {
    var h: Hint := [1, 1, 1, 1];
    assert h[0] == 1;
    var f1 := Fill(line, 1, 1);
    assert f1 == [Empty, Filled, Empty, Unknown, Unknown, Filled, Unknown, Filled, Unknown, Unknown];
    LeftCappingSecond(f1);
    assert PlaceSegmentLeft(1, line, 0) == Some(1);
    assert [1] + [3, 5, 7] == [1, 3, 5, 7];
    assert TryStarts(h, 0, line, 0) == Some([1, 3, 5, 7]);
  }

  /** The leftmost placement labels cells 1, 3, 5 and 7 with segments 0 to 3. */
  lemma LeftCapping()
    ensures LeftPlacement([1, 1, 1, 1], CappingLine())
         == Some([None, Some(0), None, Some(1), None, Some(2), None, Some(3), None, None])
  {
    var line := CappingLine();
    assert |line| == 10;
    LeftCappingStarts(line);
    LeftCappingLabels();
    assert LeftPlacement([1, 1, 1, 1], line) == Some(Labels([1, 1, 1, 1], [1, 3, 5, 7], 10));
  }

  /** Windows of one cell at 1, 3, 5 and 7 label exactly those cells. */
  lemma LeftCappingLabels()
    ensures Labels([1, 1, 1, 1], [1, 3, 5, 7], 10)
         == [None, Some(0), None, Some(1), None, Some(2), None, Some(3), None, None]
  {
    var h: Hint, st: seq<nat> := [1, 1, 1, 1], [1, 3, 5, 7];
    var p := Labels(h, st, 10);
    assert p[0] == None && p[1] == Some(0) && p[2] == None && p[3] == Some(1) && p[4] == None;
    assert p[5] == Some(2) && p[6] == None && p[7] == Some(3) && p[8] == None && p[9] == None;
  }

  /** The back half of "o_o_o_ox_x": cells 5.. hold one run. */
  lemma ReversedFilledTail(f: Line)
    requires |f| == 10 && f[6] == Filled && f[5] == f[8] == Unknown && f[7] == f[9] == Empty
    ensures Runs(f[5..]) == [1]
  {
    assert f[10..] == [];
    RunsStep(f, 9);
    RunsStep(f, 8);
    RunsStep(f, 7);
    RunsStep(f, 6);
    RunsStep(f, 5);
  }

  /** The rightmost candidate, read backwards: "o_o_o_ox_x" has runs [1, 1, 1, 1]. */
  lemma ReversedFilledRuns(f: Line)
    requires |f| == 10 && f[0] == f[2] == f[4] == f[6] == Filled
    requires f[1] == f[3] == f[5] == f[8] == Unknown && f[7] == f[9] == Empty
    ensures Runs(f) == [1, 1, 1, 1]
  {
    ReversedFilledTail(f);
    assert Runs(f[4..]) == [1, 1] by { RunsStep(f, 4); assert [1] + [1] == [1, 1]; }
    assert Runs(f[3..]) == [1, 1] by { RunsStep(f, 3); }
    assert Runs(f[2..]) == [1, 1, 1] by { RunsStep(f, 2); assert [1] + [1, 1] == [1, 1, 1]; }
    assert Runs(f[1..]) == [1, 1, 1] by { RunsStep(f, 1); }
    RunsStep(f, 0);
    assert [1] + [1, 1, 1] == [1, 1, 1, 1];
    assert f[0..] == f;
  }

  /** The last segment of the search on the reversed line: start 6 completes the hint. */
  lemma ReversedCappingLast(f3: Line)
    requires f3 == [Filled, Unknown, Filled, Unknown, Filled, Unknown, Unknown, Empty, Unknown, Empty]
    ensures TryStarts([1, 1, 1, 1], 3, f3, 6) == Some([6])
  {
    var h: Hint := [1, 1, 1, 1];
    assert h[3] == 1;
    var f := Fill(f3, 6, 1);
    assert f == [Filled, Unknown, Filled, Unknown, Filled, Unknown, Filled, Empty, Unknown, Empty];
    ReversedCappingDone(f);
    assert PlaceSegmentLeft(1, f3, 6) == Some(6);
    assert [6] + [] == [6];
  }

  /** After the fourth segment, the reversed line has exactly the hint's runs. */
  lemma ReversedCappingDone(f: Line)
    requires f == [Filled, Unknown, Filled, Unknown, Filled, Unknown, Filled, Empty, Unknown, Empty]
    ensures RecPlaceLeft([1, 1, 1, 1], 4, f, 8) == Some([])
  {
    ReversedFilledRuns(f);
  }

  /** The third segment of the search on the reversed line goes at 4. */
  lemma ReversedCappingThird(f3: Line)
    requires f3 == [Filled, Unknown, Filled, Unknown, Filled, Unknown, Unknown, Empty, Unknown, Empty]
    ensures TryStarts([1, 1, 1, 1], 2, f3, 4) == Some([4, 6])
  {
    var h: Hint := [1, 1, 1, 1];
    assert h[2] == 1;
    ReversedCappingLast(f3);
    assert Fill(f3, 4, 1) == f3;
    assert PlaceSegmentLeft(1, f3, 4) == Some(4);
    assert [4] + [6] == [4, 6];
  }

  /** The second segment of the search on the reversed line goes at 2. */
  lemma ReversedCappingSecond(f3: Line)
    requires f3 == [Filled, Unknown, Filled, Unknown, Filled, Unknown, Unknown, Empty, Unknown, Empty]
    ensures TryStarts([1, 1, 1, 1], 1, f3, 2) == Some([2, 4, 6])
  {
    var h: Hint := [1, 1, 1, 1];
    assert h[1] == 1;
    ReversedCappingThird(f3);
    assert Fill(f3, 2, 1) == f3;
    assert PlaceSegmentLeft(1, f3, 2) == Some(2);
    assert [2] + [4, 6] == [2, 4, 6];
  }

  /** The search on the reversed line "__o_o__x_x" puts the segments at 0, 2, 4 and 6. */
  lemma ReversedCappingStarts(rl: Line)
    requires rl == [Unknown, Unknown, Filled, Unknown, Filled, Unknown, Unknown, Empty, Unknown, Empty]
    ensures RecPlaceLeft([1, 1, 1, 1], 0, rl, 0) == Some([0, 2, 4, 6])
  {
    var h: Hint := [1, 1, 1, 1];
    assert h[0] == 1;
    var f3 := Fill(rl, 0, 1);
    assert f3 == [Filled, Unknown, Filled, Unknown, Filled, Unknown, Unknown, Empty, Unknown, Empty];
    ReversedCappingSecond(f3);
    assert PlaceSegmentLeft(1, rl, 0) == Some(0);
    assert [0] + [2, 4, 6] == [0, 2, 4, 6];
    assert TryStarts(h, 0, rl, 0) == Some([0, 2, 4, 6]);
  }

  /** Windows of one cell at 0, 2, 4 and 6 label exactly those cells. */
  lemma ReversedCappingLabels()
    ensures Labels([1, 1, 1, 1], [0, 2, 4, 6], 10)
         == [Some(0), None, Some(1), None, Some(2), None, Some(3), None, None, None]
  {
    var h: Hint, st: seq<nat> := [1, 1, 1, 1], [0, 2, 4, 6];
    var p := Labels(h, st, 10);
    assert p[0] == Some(0) && p[1] == None && p[2] == Some(1) && p[3] == None && p[4] == Some(2);
    assert p[5] == None && p[6] == Some(3) && p[7] == None && p[8] == None && p[9] == None;
  }

  /** The rightmost placement labels cells 3, 5, 7 and 9 with segments 0 to 3. */
  lemma RightCapping()
    ensures RightPlacement([1, 1, 1, 1], CappingLine())
         == Some([None, None, None, Some(0), None, Some(1), None, Some(2), None, Some(3)])
  {
    var h: Hint := [1, 1, 1, 1];
    var rl := Rev(CappingLine());
    assert Rev(h) == h;
    ReversedCappingLine();
    ReversedCappingStarts(rl);
    ReversedCappingLabels();
    var q: Placement := [Some(0), None, Some(1), None, Some(2), None, Some(3), None, None, None];
    assert LeftPlacement(Rev(h), rl) == Some(q);
    CappingReadBack(q);
  }

  /** "x_x__o_o__" read backwards is "__o_o__x_x". */
  lemma ReversedCappingLine()
    ensures Rev(CappingLine()) == [Unknown, Unknown, Filled, Unknown, Filled, Unknown, Unknown, Empty, Unknown, Empty]
  {
  }

  /** The labels of the reversed line, read back and renamed. */
  lemma CappingReadBack(q: Placement)
    requires q == [Some(0), None, Some(1), None, Some(2), None, Some(3), None, None, None]
    ensures LabelsBelow(Rev(q), 4)
    ensures Relabel(Rev(q), 4) == [None, None, None, Some(0), None, Some(1), None, Some(2), None, Some(3)]
  {
    var b: Placement := [None, None, None, Some(3), None, Some(2), None, Some(1), None, Some(0)];
    assert Rev(q) == b;
  }

  /** The segment counters of the two extremes differ at cells 4, 6 and 8. */
  lemma CappingCounters(left: Placement, right: Placement)
    requires left == [None, Some(0), None, Some(1), None, Some(2), None, Some(3), None, None]
    requires right == [None, None, None, Some(0), None, Some(1), None, Some(2), None, Some(3)]
    ensures NextSegment(left, 4) == 2 && NextSegment(right, 4) == 1
    ensures NextSegment(left, 6) == 3 && NextSegment(right, 6) == 2
    ensures NextSegment(left, 8) == 4 && NextSegment(right, 8) == 3
  {
    assert NextSegment(left, 1) == 0 && NextSegment(right, 1) == 0;
    assert NextSegment(left, 2) == 1 && NextSegment(right, 2) == 0;
    assert NextSegment(left, 3) == 1 && NextSegment(right, 3) == 0;
    assert NextSegment(left, 4) == 2 && NextSegment(right, 4) == 1;
    assert NextSegment(left, 5) == 2 && NextSegment(right, 5) == 1;
    assert NextSegment(left, 6) == 3 && NextSegment(right, 6) == 2;
    assert NextSegment(left, 7) == 3 && NextSegment(right, 7) == 2;
  }

  /** Cell by cell, the refinement rule keeps every cell of "x_x__o_o__" as it is. */
  lemma CappingCells(left: Placement, right: Placement, line: Line)
    requires line == CappingLine()
    requires left == [None, Some(0), None, Some(1), None, Some(2), None, Some(3), None, None]
    requires right == [None, None, None, Some(0), None, Some(1), None, Some(2), None, Some(3)]
    ensures forall i :: 0 <= i < 10 ==> RefinedCell(left, right, line, i) == line[i]
  {
    CappingCounters(left, right);
  }

  /**
   * The overlap rule decides nothing on "x_x__o_o__": the extremes never
   * give a cell the same segment, and between them the segment counters
   * differ wherever the line is Unknown.
   */
  lemma CappingUnchanged()
    ensures var line := CappingLine();
            LeftPlacement([1, 1, 1, 1], line).Some? && RightPlacement([1, 1, 1, 1], line).Some? &&
            var left, right := LeftPlacement([1, 1, 1, 1], line).value, RightPlacement([1, 1, 1, 1], line).value;
            |left| == |right| == 10 &&
            forall i :: 0 <= i < 10 ==> RefinedCell(left, right, line, i) == line[i]
  {
    LeftCapping();
    RightCapping();
    CappingCells(LeftPlacement([1, 1, 1, 1], CappingLine()).value,
                 RightPlacement([1, 1, 1, 1], CappingLine()).value, CappingLine());
  }

  /** Yet every completion of "x_x__o_o__" by [1, 1, 1, 1] has cells 4, 6 and 8 Empty. */
  lemma CappingGaps(c: Line)
    requires Completes([1, 1, 1, 1], CappingLine(), c)
    ensures c[4] == Empty && c[6] == Empty && c[8] == Empty
  {
    var h: Hint := [1, 1, 1, 1];
    assert c[5] == Filled && c[7] == Filled;
    if c[4] == Filled {
      AdjacentFilled(c, 4);
    }
    if c[6] == Filled {
      AdjacentFilled(c, 5);
    }
    if c[8] == Filled {
      AdjacentFilled(c, 7);
    }
  }

  /** Hint [3, 2] on ten Unknown cells: the leftmost placement is "000_11____". */
  lemma LeftTwoSegments()
    ensures var line := [Unknown, Unknown, Unknown, Unknown, Unknown, Unknown, Unknown, Unknown, Unknown, Unknown];
            LeftPlacement([3, 2], line) ==
            Some([Some(0), Some(0), Some(0), None, Some(1), Some(1), None, None, None, None])
  {
    var line := [Unknown, Unknown, Unknown, Unknown, Unknown, Unknown, Unknown, Unknown, Unknown, Unknown];
    var h: Hint := [3, 2];
    ValidStartsIff(h, line, [0, 4]);
    LeftmostBelow(h, line, [0, 4]);
    // the leftmost starts lie below [0, 4] and keep the gap, so they are [0, 4]
    var s := RecPlaceLeft(h, 0, line, 0).value;
    ValidStartsIff(h, line, s);
    assert s == [0, 4];
    TwoSegmentLabels();
  }

  /** Windows of 3 and 2 cells at 0 and 4, drawn on ten cells. */
  lemma TwoSegmentLabels()
    ensures Labels([3, 2], [0, 4], 10)
         == [Some(0), Some(0), Some(0), None, Some(1), Some(1), None, None, None, None]
  {
    var h: Hint := [3, 2];
    var s: seq<nat> := [0, 4];
    assert LabelAt(h, s, 0, 2) == Some(0) && LabelAt(h, s, 1, 2) == Some(0) && LabelAt(h, s, 2, 2) == Some(0);
    assert LabelAt(h, s, 3, 2) == None;
    assert LabelAt(h, s, 4, 2) == Some(1) && LabelAt(h, s, 5, 2) == Some(1);
    assert LabelAt(h, s, 6, 2) == None && LabelAt(h, s, 7, 2) == None;
    assert LabelAt(h, s, 8, 2) == None && LabelAt(h, s, 9, 2) == None;
  }

  /** The line "oxox______". */
  function FilledLeftLine(): Line {
    [Filled, Empty, Filled, Empty, Unknown, Unknown, Unknown, Unknown, Unknown, Unknown]
  }

  /** Hint [1, 1] on ten cells with cells 0 and 2 Filled: those two cells are the only completion. */
  lemma FilledLeftUnique(line: Line, v: seq<nat>)
    requires |line| == 10 && line[0] == Filled && line[2] == Filled
    requires ValidStarts([1, 1], line, v)
    ensures v == [0, 2]
  {
    var h: Hint := [1, 1];
    ValidStartsIff(h, line, v);
    var j0 :| InWindow(h, v, j0, 0);
    var j2 :| InWindow(h, v, j2, 2);
  }

  /** Hint [1, 1] on "oxox______": both placements are "0_1_______". */
  lemma FilledLeft()
    ensures LeftPlacement([1, 1], FilledLeftLine())
         == Some([Some(0), None, Some(1), None, None, None, None, None, None, None])
    ensures RightPlacement([1, 1], FilledLeftLine())
         == Some([Some(0), None, Some(1), None, None, None, None, None, None, None])
  {
    var h: Hint := [1, 1];
    var line := FilledLeftLine();
    FilledLeftValid(line);
    forall v | ValidStarts(h, line, v)
      ensures v == [0, 2]
    {
      FilledLeftUnique(line, v);
    }
    UniqueCompletion(h, line, [0, 2]);
    FilledLeftLabels();
  }

  /** Segments of one cell at 0 and 2 complete a ten-cell line whose only Filled cells are 0 and 2. */
  lemma FilledLeftValid(line: Line)
    requires |line| == 10 && line[0] == Filled && line[2] == Filled
    requires forall x :: 0 <= x < 10 && x != 0 && x != 2 ==> line[x] != Filled
    ensures ValidStarts([1, 1], line, [0, 2])
  {
    var h: Hint := [1, 1];
    ValidStartsIff(h, line, [0, 2]);
    assert InWindow(h, [0, 2], 0, 0) && InWindow(h, [0, 2], 1, 2);
  }

  /** Windows of one cell at 0 and 2, drawn on ten cells. */
  lemma FilledLeftLabels()
    ensures Labels([1, 1], [0, 2], 10) == [Some(0), None, Some(1), None, None, None, None, None, None, None]
  {
    var h: Hint := [1, 1];
    var s: seq<nat> := [0, 2];
    assert LabelAt(h, s, 0, 2) == Some(0) && LabelAt(h, s, 1, 2) == None && LabelAt(h, s, 2, 2) == Some(1);
  }

  /** Hint [4] on "______": the leftmost placement is cells 0..3. */
  lemma OpenLeft(line: Line)
    requires line == [Unknown, Unknown, Unknown, Unknown, Unknown, Unknown]
    ensures LeftPlacement([4], line) == Some([Some(0), Some(0), Some(0), Some(0), None, None])
  {
    var h: Hint := [4];
    ValidStartsIff(h, line, [0]);
    LeftmostBelow(h, line, [0]);
    assert RecPlaceLeft(h, 0, line, 0).value == [0];
    assert Labels(h, [0], 6) == [Some(0), Some(0), Some(0), Some(0), None, None];
  }

  /** Hint [4] on "______": the rightmost placement is cells 2..5. */
  lemma OpenRight(line: Line)
    requires line == [Unknown, Unknown, Unknown, Unknown, Unknown, Unknown]
    ensures RightPlacement([4], line) == Some([None, None, Some(0), Some(0), Some(0), Some(0)])
  {
    var h: Hint := [4];
    ValidStartsIff(h, line, [2]);
    var r := RightmostAbove(h, line, [2]);
    // a window of 4 cells starting at or after cell 2 ends the line
    assert r == [2];
    assert Labels(h, [2], 6) == [None, None, Some(0), Some(0), Some(0), Some(0)];
  }

  /** Hint [4] on "______": only the two middle cells are forced, and the line is not solved. */
  lemma OpenOverlap()
    ensures var line := [Unknown, Unknown, Unknown, Unknown, Unknown, Unknown];
            Refined(line, [4]) ==
            Some(Refinement([Unknown, Unknown, Filled, Filled, Unknown, Unknown], false, true))
  {
    var line := [Unknown, Unknown, Unknown, Unknown, Unknown, Unknown];
    OpenLeft(line);
    OpenRight(line);
    OpenOverlapCells(LeftPlacement([4], line).value, RightPlacement([4], line).value, line);
  }

  /** With the extremes at cells 0..3 and 2..5, only cells 2 and 3 are owned by the same segment in both. */
  lemma OpenOverlapCells(left: Placement, right: Placement, line: Line)
    requires line == [Unknown, Unknown, Unknown, Unknown, Unknown, Unknown]
    requires left == [Some(0), Some(0), Some(0), Some(0), None, None]
    requires right == [None, None, Some(0), Some(0), Some(0), Some(0)]
    ensures !Forced(left, right, 0)
    ensures seq(6, i requires 0 <= i < 6 => RefinedCell(left, right, line, i))
         == [Unknown, Unknown, Filled, Filled, Unknown, Unknown]
  {
  }

  /** The empty hint on "_____": both placements own no cell. */
  lemma EmptyHintPlacements(line: Line)
    requires line == [Unknown, Unknown, Unknown, Unknown, Unknown]
    ensures LeftPlacement([], line) == RightPlacement([], line) == Some([None, None, None, None, None])
  {
    var h: Hint := [];
    RunsEmptyIff(line);
    assert RecPlaceLeft(h, 0, line, 0) == Some([]);
    ValidStartsIff(h, line, []);
    var r := RightmostAbove(h, line, []);
    assert Labels(h, [], 5) == [None, None, None, None, None];
  }

  /** The empty hint on "_____": every cell is forced Empty and the line is solved. */
  lemma EmptyHint()
    ensures var line := [Unknown, Unknown, Unknown, Unknown, Unknown];
            Refined(line, []) == Some(Refinement([Empty, Empty, Empty, Empty, Empty], true, true))
  {
    var line := [Unknown, Unknown, Unknown, Unknown, Unknown];
    EmptyHintPlacements(line);
    var p: Placement := [None, None, None, None, None];
    assert forall i :: 0 <= i < 5 ==> Forced(p, p, i);
    assert seq(5, i requires 0 <= i < 5 => RefinedCell(p, p, line, i)) == [Empty, Empty, Empty, Empty, Empty];
  }

  /** Hint [3] on "_____": the rightmost placement is "__000". */
  lemma RightOneSegment(line: Line)
    requires line == [Unknown, Unknown, Unknown, Unknown, Unknown]
    ensures RightPlacement([3], line) == Some([None, None, Some(0), Some(0), Some(0)])
  {
    var h: Hint := [3];
    ValidStartsIff(h, line, [2]);
    var r := RightmostAbove(h, line, [2]);
    // a window of 3 cells starting at or after cell 2 ends the line
    assert r == [2];
    assert Labels(h, [2], 5) == [None, None, Some(0), Some(0), Some(0)];
  }

  /**
   * Hint [1, 1] on "oxoxxxxx__": the two Filled cells are the only
   * completion, so one refinement solves the line as "oxoxxxxxxx".
   */
  lemma SettledGaps()
    ensures var line := [Filled, Empty, Filled, Empty, Empty, Empty, Empty, Empty, Unknown, Unknown];
            Refined(line, [1, 1]) ==
            Some(Refinement([Filled, Empty, Filled, Empty, Empty, Empty, Empty, Empty, Empty, Empty], true, true))
  {
    var h: Hint := [1, 1];
    var line := [Filled, Empty, Filled, Empty, Empty, Empty, Empty, Empty, Unknown, Unknown];
    FilledLeftValid(line);
    forall v | ValidStarts(h, line, v)
      ensures v == [0, 2]
    {
      FilledLeftUnique(line, v);
    }
    UniqueCompletionSolved(h, line, [0, 2]);
    var r := Refined(line, h).value;
    SettledGapsCells(r.line);
    assert r.line[8] != line[8];
  }

  /** The cells that one-cell windows at 0 and 2 make Filled, and Empty everywhere else. */
  lemma SettledGapsCells(c: Line)
    requires |c| == 10 && forall x :: 0 <= x < 10 ==> c[x] == if Covered([1, 1], [0, 2], x) then Filled else Empty
    ensures c == [Filled, Empty, Filled, Empty, Empty, Empty, Empty, Empty, Empty, Empty]
  {
    var h: Hint := [1, 1];
    assert InWindow(h, [0, 2], 0, 0) && InWindow(h, [0, 2], 1, 2);
    assert c[0] == Filled && c[2] == Filled;
  }
}
