/**
 * `Game::place_all_right` (src/game.rs): the rightmost placement, computed
 * as the leftmost placement of the reversed hint on the reversed line, read
 * back in reverse with every label j renamed |hint| - 1 - j.
 */
module RightPlacer {
  import opened Wrappers
  import opened LineMatcher
  import opened Windows
  import opened LeftPlacer

  /** The sequence read backwards. */
  function Rev<T>(s: seq<T>): (r: seq<T>)
    ensures |r| == |s|
  {
    seq(|s|, i requires 0 <= i < |s| => s[|s| - 1 - i])
  }

  lemma RevRev<T>(s: seq<T>)
    ensures Rev(Rev(s)) == s
  {
  }

  /** Every label of the placement names one of `m` segments. */
  predicate LabelsBelow(p: Placement, m: nat) {
    forall x :: 0 <= x < |p| && p[x].Some? ==> p[x].value < m
  }

  /** Rename segment j to m - 1 - j, the index it has in the hint read forwards. */
  function Relabel(p: Placement, m: nat): (r: Placement)
    requires LabelsBelow(p, m)
    ensures |r| == |p|
  {
    seq(|p|, x requires 0 <= x < |p| => if p[x].Some? then Some(m - 1 - p[x].value) else None)
  }

  /** The leftmost placement of the reversed problem carries only labels of its segments. */
  lemma LeftLabelsBelow(hint: Hint, line: Line)
    requires LeftPlacement(hint, line).Some?
    ensures LabelsBelow(LeftPlacement(hint, line).value, |hint|)
    ensures LabelsBelow(Rev(LeftPlacement(hint, line).value), |hint|)
  {
    LeftPlacementShape(hint, line);
  }

  /** The value `Game::place_all_right` computes. */
  function RightPlacement(hint: Hint, line: Line): Option<Placement> {
    match LeftPlacement(Rev(hint), Rev(line))
    case None => None
    case Some(q) =>
      LeftLabelsBelow(Rev(hint), Rev(line));
      Some(Relabel(Rev(q), |hint|))
  }

  /** Vec::reverse: reverse an array in place by swapping from both ends. */
  method Reverse<T>(a: array<T>)
    modifies a
    ensures a[..] == Rev(old(a[..]))
  {
    var n := a.Length;
    var lo, hi := 0, n;
    while lo + 1 < hi
      invariant 0 <= lo <= hi <= n && lo + hi == n
      invariant forall x :: 0 <= x < lo ==> a[x] == old(a[n - 1 - x]) && a[n - 1 - x] == old(a[x])
      invariant forall x :: lo <= x < hi ==> a[x] == old(a[x])
    {
      hi := hi - 1;
      a[lo], a[hi] := a[hi], a[lo];
      lo := lo + 1;
    }
  }

  /** The `p.map(|p| hint.len() - p - 1)` pass of place_all_right, in place. */
  method RelabelInPlace(a: array<Option<nat>>, m: nat)
    requires LabelsBelow(a[..], m)
    modifies a
    ensures a[..] == Relabel(old(a[..]), m)
  {
    ghost var p := a[..];
    for x := 0 to a.Length
      invariant forall y :: 0 <= y < a.Length ==> a[y] == if y < x then Relabel(p, m)[y] else p[y]
    {
      if a[x].Some? {
        a[x] := Some(m - a[x].value - 1);
      }
    }
  }

  /** A fresh array holding `s` reversed: a clone followed by Vec::reverse. */
  method ReversedCopy<T>(s: seq<T>) returns (a: array<T>)
    ensures fresh(a) && a[..] == Rev(s)
  {
    a := new T[|s|](x requires 0 <= x < |s| => s[x]);
    assert a[..] == s;
    Reverse(a);
  }

  /**
   * Game::place_all_right: reverse copies of the line and of the hint, place
   * leftmost, then reverse the placement and rename its labels in place.
   */
  method PlaceAllRight(hint: Hint, line: Line) returns (r: Option<Placement>)
    ensures r == RightPlacement(hint, line)
  {
    var reverseLine := ReversedCopy(line);
    var reverseHint := ReversedCopy(hint);
    var placements := PlaceAllLeft(reverseHint[..], reverseLine[..]);
    match placements
    case None =>
      r := None;
    case Some(q) =>
      LeftLabelsBelow(Rev(hint), Rev(line));
      var a := ReversedCopy(q);
      RelabelInPlace(a, |hint|);
      r := Some(a[..]);
  }

  /**
   * The starts of the same windows seen on the reversed line, for the
   * reversed hint: entry i is the distance from the right end of the line to
   * the right end of window |s| - 1 - i.
   */
  function FromRight(hint: Hint, s: seq<nat>, n: nat): (r: seq<nat>)
    requires |s| == |hint|
    ensures |r| == |s|
  {
    var m := |s|;
    seq(m, i requires 0 <= i < m =>
      var e := s[m - 1 - i] + hint[m - 1 - i];
      if e <= n then n - e else 0)
  }

  /** Window i of the mirrored starts covers cell y exactly when window m-1-i covers cell n-1-y. */
  lemma MirrorWindow(hint: Hint, s: seq<nat>, n: nat)
    requires Ordered(hint, s, n)
    ensures forall i, y :: 0 <= y < n ==>
      (InWindow(Rev(hint), FromRight(hint, s, n), i, y) <==> InWindow(hint, s, |s| - 1 - i, n - 1 - y))
  {
  }

  /** Mirrored ordered windows are ordered. */
  lemma MirrorOrdered(hint: Hint, s: seq<nat>, n: nat)
    requires Ordered(hint, s, n)
    ensures Ordered(Rev(hint), FromRight(hint, s, n), n)
  {
    var m := |s|;
    var t := FromRight(hint, s, n);
    forall i | 0 < i < m
      ensures t[i - 1] + Rev(hint)[i - 1] < t[i]
    {
      assert s[m - 1 - i] + hint[m - 1 - i] < s[m - i];
    }
  }

  /** Mirroring twice gives back the starts. */
  lemma FromRightTwice(hint: Hint, s: seq<nat>, n: nat)
    requires Ordered(hint, s, n)
    ensures Ordered(Rev(hint), FromRight(hint, s, n), n)
    ensures FromRight(Rev(hint), FromRight(hint, s, n), n) == s
  {
    MirrorOrdered(hint, s, n);
  }

  /** Mirrored windows of a placement are placed on the reversed line. */
  lemma MirrorPlaced(hint: Hint, line: Line, s: seq<nat>)
    requires Placed(hint, line, s)
    ensures Placed(Rev(hint), Rev(line), FromRight(hint, s, |line|))
  {
    var n, m := |line|, |s|;
    var t := FromRight(hint, s, n);
    MirrorOrdered(hint, s, n);
    forall i, y | InWindow(Rev(hint), t, i, y)
      ensures 0 <= y < n && Rev(line)[y] != Empty
    {
      var j := m - 1 - i;
      assert t[i] == n - (s[j] + hint[j]) && Rev(hint)[i] == hint[j];
      assert InWindow(hint, s, j, n - 1 - y);
    }
  }

  /** Mirrored windows of a completion cover every Filled cell of the reversed line. */
  lemma MirrorCovers(hint: Hint, line: Line, s: seq<nat>)
    requires Solution(hint, line, s)
    ensures forall y :: 0 <= y < |line| && Rev(line)[y] == Filled ==>
      Covered(Rev(hint), FromRight(hint, s, |line|), y)
  {
    var n, m := |line|, |s|;
    var t := FromRight(hint, s, n);
    MirrorWindow(hint, s, n);
    forall y | 0 <= y < n && Rev(line)[y] == Filled
      ensures Covered(Rev(hint), t, y)
    {
      assert line[n - 1 - y] == Filled;
      var j :| InWindow(hint, s, j, n - 1 - y);
      assert InWindow(Rev(hint), t, m - 1 - j, y);
    }
  }

  /** A completion of the line, mirrored, is a completion of the reversed line for the reversed hint. */
  lemma MirrorSolution(hint: Hint, line: Line, s: seq<nat>)
    requires Solution(hint, line, s)
    ensures Solution(Rev(hint), Rev(line), FromRight(hint, s, |line|))
  {
    MirrorPlaced(hint, line, s);
    MirrorCovers(hint, line, s);
  }

  /** The line and its mirror image have valid start vectors together. */
  lemma MirrorValid(hint: Hint, line: Line, s: seq<nat>)
    requires ValidStarts(hint, line, s)
    ensures ValidStarts(Rev(hint), Rev(line), FromRight(hint, s, |line|))
  {
    ValidStartsIff(hint, line, s);
    MirrorSolution(hint, line, s);
    ValidStartsIff(Rev(hint), Rev(line), FromRight(hint, s, |line|));
  }

  lemma MirrorSatisfiable(hint: Hint, line: Line)
    ensures Satisfiable(Rev(hint), Rev(line)) <==> Satisfiable(hint, line)
  {
    if Satisfiable(hint, line) {
      var s :| ValidStarts(hint, line, s);
      MirrorValid(hint, line, s);
    }
    if Satisfiable(Rev(hint), Rev(line)) {
      var t :| ValidStarts(Rev(hint), Rev(line), t);
      MirrorValid(Rev(hint), Rev(line), t);
      RevRev(hint);
      RevRev(line);
    }
  }

  /** Cell x of the mirrored picture, read backwards and renamed, is cell x of the picture. */
  lemma MirrorLabelAt(hint: Hint, s: seq<nat>, n: nat, x: nat)
    requires Ordered(hint, s, n) && x < n
    ensures var q := Labels(Rev(hint), FromRight(hint, s, n), n)[n - 1 - x];
      q == if Labels(hint, s, n)[x].Some? then Some(|s| - 1 - Labels(hint, s, n)[x].value) else None
  {
    if Labels(hint, s, n)[x].Some? {
      MirrorLabelOwned(hint, s, n, x);
    } else {
      MirrorLabelFree(hint, s, n, x);
    }
  }

  /** A cell owned by segment j is owned, in the mirror image, by segment |s| - 1 - j. */
  lemma MirrorLabelOwned(hint: Hint, s: seq<nat>, n: nat, x: nat)
    requires Ordered(hint, s, n) && x < n && Labels(hint, s, n)[x].Some?
    ensures Labels(Rev(hint), FromRight(hint, s, n), n)[n - 1 - x] == Some(|s| - 1 - Labels(hint, s, n)[x].value)
  {
    var m := |s|;
    var t := FromRight(hint, s, n);
    MirrorOrdered(hint, s, n);
    LabelOfOrdered(Rev(hint), t, n, n - 1 - x);
    LabelOfOrdered(hint, s, n, x);
    var j := Labels(hint, s, n)[x].value;
    assert InWindow(hint, s, j, x);
    assert t[m - 1 - j] == n - (s[j] + hint[j]) && Rev(hint)[m - 1 - j] == hint[j];
    assert InWindow(Rev(hint), t, m - 1 - j, n - 1 - x);
  }

  /** A cell no segment owns stays unowned in the mirror image. */
  lemma MirrorLabelFree(hint: Hint, s: seq<nat>, n: nat, x: nat)
    requires Ordered(hint, s, n) && x < n && Labels(hint, s, n)[x].None?
    ensures Labels(Rev(hint), FromRight(hint, s, n), n)[n - 1 - x].None?
  {
    MirrorOrdered(hint, s, n);
    LabelOfOrdered(Rev(hint), FromRight(hint, s, n), n, n - 1 - x);
    LabelOfOrdered(hint, s, n, x);
    MirrorCovered(hint, s, n, n - 1 - x);
  }

  /** A cell covered by a mirrored window is the mirror image of a covered cell. */
  lemma MirrorCovered(hint: Hint, s: seq<nat>, n: nat, y: nat)
    requires Ordered(hint, s, n) && y < n
    ensures Covered(Rev(hint), FromRight(hint, s, n), y) ==> Covered(hint, s, n - 1 - y)
  {
    var m := |s|;
    var t := FromRight(hint, s, n);
    if Covered(Rev(hint), t, y) {
      var i :| InWindow(Rev(hint), t, i, y);
      var j := m - 1 - i;
      assert t[i] == n - (s[j] + hint[j]) && Rev(hint)[i] == hint[j];
      assert InWindow(hint, s, j, n - 1 - y);
    }
  }

  /** Reading the labels of mirrored windows backwards, renamed, gives the labels of the windows. */
  lemma MirrorLabels(hint: Hint, s: seq<nat>, n: nat)
    requires Ordered(hint, s, n)
    ensures LabelsBelow(Rev(Labels(Rev(hint), FromRight(hint, s, n), n)), |hint|)
    ensures Relabel(Rev(Labels(Rev(hint), FromRight(hint, s, n), n)), |hint|) == Labels(hint, s, n)
  {
    var q := Rev(Labels(Rev(hint), FromRight(hint, s, n), n));
    forall x | 0 <= x < n
      ensures q[x] == if Labels(hint, s, n)[x].Some? then Some(|s| - 1 - Labels(hint, s, n)[x].value) else None
    {
      MirrorLabelAt(hint, s, n, x);
    }
  }

  /**
   * Shape of the rightmost placement: it exists exactly when the line has a
   * completion; it is then the picture of a completion whose windows, measured
   * from the right end and read from the last segment, are lexicographically
   * least among all valid start vectors (the rightmost placement).
   */
  lemma RightPlacementShape(hint: Hint, line: Line)
    ensures RightPlacement(hint, line).None? <==> !Satisfiable(hint, line)
    ensures RightPlacement(hint, line).Some? ==>
      exists r :: SolutionPlacement(hint, line, RightPlacement(hint, line).value, r) &&
        forall u :: ValidStarts(hint, line, u) ==>
          LexLeq(FromRight(hint, r, |line|), FromRight(hint, u, |line|))
  {
    LeftPlacementShape(Rev(hint), Rev(line));
    MirrorSatisfiable(hint, line);
    if RightPlacement(hint, line).Some? {
      var t := RecPlaceLeft(Rev(hint), 0, Rev(line), 0).value;
      var r := RightFromLeft(hint, line, t);
      assert SolutionPlacement(hint, line, RightPlacement(hint, line).value, r);
    }
  }

  /** Reversing a hint keeps every entry positive, and back. */
  lemma RevPositive(hint: Hint)
    ensures Positive(Rev(hint)) <==> Positive(hint)
  {
    var m := |hint|;
    if Positive(Rev(hint)) {
      forall j | 0 <= j < m
        ensures hint[j] > 0
      {
        assert Rev(hint)[m - 1 - j] == hint[j];
      }
    }
  }

  /** The leftmost starts of the reversed problem, mirrored, are a completion of the line. */
  lemma MirroredLeftmost(hint: Hint, line: Line, t: seq<nat>)
    requires RecPlaceLeft(Rev(hint), 0, Rev(line), 0) == Some(t)
    ensures Positive(hint) && Solution(hint, line, FromRight(Rev(hint), t, |line|))
    ensures FromRight(hint, FromRight(Rev(hint), t, |line|), |line|) == t
  {
    var n := |line|;
    ValidStartsIff(Rev(hint), Rev(line), t);
    RevPositive(hint);
    MirrorSolution(Rev(hint), Rev(line), t);
    RevRev(hint);
    RevRev(line);
    FromRightTwice(Rev(hint), t, n);
  }

  /** The rightmost placement is the picture of the mirrored leftmost starts of the reversed problem. */
  lemma RightLabels(hint: Hint, line: Line, t: seq<nat>)
    requires RecPlaceLeft(Rev(hint), 0, Rev(line), 0) == Some(t)
    ensures RightPlacement(hint, line) == Some(Labels(hint, FromRight(Rev(hint), t, |line|), |line|))
  {
    var n := |line|;
    var r := FromRight(Rev(hint), t, n);
    MirroredLeftmost(hint, line, t);
    MirrorLabels(hint, r, n);
    assert LeftPlacement(Rev(hint), Rev(line)) == Some(Labels(Rev(hint), t, n));
  }

  /** The rightmost placement in terms of the leftmost starts `t` of the reversed problem. */
  lemma RightFromLeft(hint: Hint, line: Line, t: seq<nat>) returns (r: seq<nat>)
    requires RecPlaceLeft(Rev(hint), 0, Rev(line), 0) == Some(t)
    ensures RightPlacement(hint, line).Some?
    ensures SolutionPlacement(hint, line, RightPlacement(hint, line).value, r)
    ensures FromRight(hint, r, |line|) == t
    ensures forall u :: ValidStarts(hint, line, u) ==>
      LexLeq(FromRight(hint, r, |line|), FromRight(hint, u, |line|))
  {
    r := FromRight(Rev(hint), t, |line|);
    MirroredLeftmost(hint, line, t);
    RightLabels(hint, line, t);
    RightmostOrder(hint, line, t);
  }

  /** Every valid start vector, mirrored, comes lexicographically after the leftmost one of the reversed problem. */
  lemma RightmostOrder(hint: Hint, line: Line, t: seq<nat>)
    requires RecPlaceLeft(Rev(hint), 0, Rev(line), 0) == Some(t)
    ensures forall u :: ValidStarts(hint, line, u) ==>
      LexLeq(FromRight(hint, FromRight(Rev(hint), t, |line|), |line|), FromRight(hint, u, |line|))
  {
    var n := |line|;
    SearchLeftmost(Rev(hint), Rev(line));
    ValidStartsIff(Rev(hint), Rev(line), t);
    RevRev(hint);
    FromRightTwice(Rev(hint), t, n);
    forall u | ValidStarts(hint, line, u)
      ensures LexLeq(t, FromRight(hint, u, n))
    {
      MirrorValid(hint, line, u);
    }
  }

  /** The rightmost placement agrees with the line: Empty cells unowned, Filled cells owned. */
  lemma RightAgrees(hint: Hint, line: Line)
    requires RightPlacement(hint, line).Some?
    ensures Agrees(line, RightPlacement(hint, line).value)
  {
    RightPlacementShape(hint, line);
    var p := RightPlacement(hint, line).value;
    var r :| SolutionPlacement(hint, line, p, r);
    LabelsOfOrdered(hint, r, |line|);
  }
}
