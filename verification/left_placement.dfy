/**
 * `Game::place_all_left` (src/game.rs): a backtracking search for the
 * leftmost start of every hint segment on a partially known line, and the
 * per-cell "owned by segment j / unowned" vector built from those starts.
 */
module LeftPlacer {
  import opened Wrappers
  import opened LineMatcher
  import opened Windows

  /** A window of `seg` cells starting at `p` lies on the line and holds no Empty cell. */
  predicate Fits(seg: nat, line: Line, p: nat) {
    p + seg <= |line| && forall x :: p <= x < p + seg ==> line[x] != Empty
  }

  /**
   * can_seg_be_placed: false for a segment longer than the line, otherwise
   * true when no cell of the window is Empty (the window must be in range).
   */
  function CanSegBePlaced(seg: nat, line: Line, p: nat): (ok: bool)
    requires seg > |line| || p + seg <= |line|
    ensures ok <==> Fits(seg, line, p)
  {
    if seg > |line| then false
    else !exists x :: p <= x < p + seg && line[x] == Empty
  }

  /**
   * place_segment_left: the first start at or after `i`, up to the last start
   * that keeps the window on the line, where the segment fits.
   */
  function PlaceSegmentLeft(seg: nat, line: Line, i: nat): (r: Option<nat>)
    ensures r.Some? ==> i <= r.value && Fits(seg, line, r.value)
    ensures forall q :: i <= q && (r.None? || q < r.value) ==> !Fits(seg, line, q)
    decreases |line| - i
  {
    if i + seg > |line| then None
    else if CanSegBePlaced(seg, line, i) then Some(i)
    else PlaceSegmentLeft(seg, line, i + 1)
  }

  /** place_segment on a clone of the line: the window [p, p + seg) becomes Filled. */
  function Fill(line: Line, p: nat, seg: nat): (r: Line)
    ensures |r| == |line|
    ensures forall x :: 0 <= x < |r| && !(p <= x < p + seg) ==> r[x] == line[x]
    ensures forall x :: p <= x < p + seg && x < |r| ==> r[x] == Filled
  {
    seq(|line|, x requires 0 <= x < |line| => if p <= x < p + seg then Filled else line[x])
  }

  /**
   * The condition the search establishes at depth k: the starts `t` of
   * segments k.. are each at or after the floor `start` (the previous window's
   * end plus one gap cell), fit the current snapshot of the line, and once
   * they are all filled in the snapshot the line's runs are the whole hint.
   */
  predicate ValidFrom(hint: Hint, k: nat, line: Line, start: nat, t: seq<nat>)
    requires k <= |hint|
    decreases |hint| - k
  {
    |t| == |hint| - k &&
    if k == |hint| then Runs(line) == hint
    else
      start <= t[0] && Fits(hint[k], line, t[0]) &&
      ValidFrom(hint, k + 1, Fill(line, t[0], hint[k]), t[0] + hint[k] + 1, t[1..])
  }

  /** A valid start vector for the whole hint on the line. */
  predicate ValidStarts(hint: Hint, line: Line, s: seq<nat>) {
    ValidFrom(hint, 0, line, 0, s)
  }

  /** The line admits at least one placement of its hint. */
  ghost predicate Satisfiable(hint: Hint, line: Line) {
    exists s :: ValidStarts(hint, line, s)
  }

  /**
   * rec_place_left: with no segment left, succeed when the constructed line's
   * runs are the hint; otherwise try the starts of segment k from `start` on.
   */
  function RecPlaceLeft(hint: Hint, k: nat, line: Line, start: nat): (r: Option<seq<nat>>)
    requires k <= |hint|
    ensures r.Some? ==> ValidFrom(hint, k, line, start, r.value)
    decreases |hint| - k, 1, 0
  {
    if k == |hint| then (if Runs(line) == hint then Some([]) else None)
    else TryStarts(hint, k, line, start)
  }

  /**
   * The `for i in start_index..` loop of rec_place_left, from iteration `i`:
   * find the first fitting start p >= i, fill it in a copy of the line and
   * recurse; on failure go on with i + 1 (so a start may be tried again).
   */
  function TryStarts(hint: Hint, k: nat, line: Line, i: nat): (r: Option<seq<nat>>)
    requires k < |hint|
    ensures r.Some? ==> ValidFrom(hint, k, line, i, r.value)
    decreases |hint| - k, 0, |line| - i
  {
    var seg := hint[k];
    if i + seg > |line| then None
    else
      match PlaceSegmentLeft(seg, line, i)
      case None => None
      case Some(p) =>
        match RecPlaceLeft(hint, k + 1, Fill(line, p, seg), p + seg + 1)
        case Some(rest) => Some([p] + rest)
        case None => TryStarts(hint, k, line, i + 1)
  }

  /** Lexicographic order on start vectors of equal length. */
  predicate LexLeq(a: seq<nat>, b: seq<nat>) {
    |a| == 0 || (|b| > 0 && (a[0] < b[0] || (a[0] == b[0] && LexLeq(a[1..], b[1..]))))
  }

  /** Whatever valid starts exist from depth k, the search finds some, and none lexicographically larger. */
  lemma {:induction false} RecLeast(hint: Hint, k: nat, line: Line, start: nat, u: seq<nat>)
    requires k <= |hint| && ValidFrom(hint, k, line, start, u)
    ensures RecPlaceLeft(hint, k, line, start).Some?
    ensures LexLeq(RecPlaceLeft(hint, k, line, start).value, u)
    decreases |hint| - k, 1, 0, 0
  {
    if k < |hint| {
      TryLeast(hint, k, line, start, u);
    }
  }

  /** From iteration i of the loop, the search finds starts no larger than any valid u. */
  lemma {:induction false} TryLeast(hint: Hint, k: nat, line: Line, i: nat, u: seq<nat>)
    requires k < |hint| && ValidFrom(hint, k, line, i, u)
    ensures TryStarts(hint, k, line, i).Some?
    ensures LexLeq(TryStarts(hint, k, line, i).value, u)
    decreases |hint| - k, 0, u[0] - i, 1
  {
    var p := FirstFit(hint, k, line, i, u);
    if p == u[0] {
      TryLeastAt(hint, k, line, i, u);
    } else {
      TryLeastBefore(hint, k, line, i, u, p);
    }
  }

  /** The first fitting start from i is u[0]: the rest of u bounds the rest of the search. */
  lemma {:induction false} TryLeastAt(hint: Hint, k: nat, line: Line, i: nat, u: seq<nat>)
    requires k < |hint| && i + hint[k] <= |line| && |u| > 0
    requires PlaceSegmentLeft(hint[k], line, i) == Some(u[0])
    requires ValidFrom(hint, k + 1, Fill(line, u[0], hint[k]), u[0] + hint[k] + 1, u[1..])
    ensures TryStarts(hint, k, line, i).Some?
    ensures LexLeq(TryStarts(hint, k, line, i).value, u)
    decreases |hint| - k, 0, u[0] - i, 0
  {
    var line' := Fill(line, u[0], hint[k]);
    RecLeast(hint, k + 1, line', u[0] + hint[k] + 1, u[1..]);
    TryStartsStep(hint, k, line, i);
    var rest := RecPlaceLeft(hint, k + 1, line', u[0] + hint[k] + 1).value;
    assert ([u[0]] + rest)[1..] == rest;
  }

  /** The first fitting start p from i is before u[0]: either its search succeeds, or the loop goes on from i + 1. */
  lemma {:induction false} TryLeastBefore(hint: Hint, k: nat, line: Line, i: nat, u: seq<nat>, p: nat)
    requires k < |hint| && i + hint[k] <= |line| && |u| > 0
    requires PlaceSegmentLeft(hint[k], line, i) == Some(p) && p < u[0]
    requires ValidFrom(hint, k, line, i + 1, u)
    ensures TryStarts(hint, k, line, i).Some?
    ensures LexLeq(TryStarts(hint, k, line, i).value, u)
    decreases |hint| - k, 0, u[0] - i, 0
  {
    StepBefore(hint, k, line, i, u, p);
    if RecPlaceLeft(hint, k + 1, Fill(line, p, hint[k]), p + hint[k] + 1).None? {
      TryLeast(hint, k, line, i + 1, u);
    }
  }

  /** A search that succeeds at a start p before u[0] ends below u; one that fails goes on from i + 1. */
  lemma StepBefore(hint: Hint, k: nat, line: Line, i: nat, u: seq<nat>, p: nat)
    requires k < |hint| && i + hint[k] <= |line| && |u| > 0
    requires PlaceSegmentLeft(hint[k], line, i) == Some(p) && p < u[0]
    ensures var next := RecPlaceLeft(hint, k + 1, Fill(line, p, hint[k]), p + hint[k] + 1);
      if next.Some? then TryStarts(hint, k, line, i).Some? && LexLeq(TryStarts(hint, k, line, i).value, u)
      else TryStarts(hint, k, line, i) == TryStarts(hint, k, line, i + 1)
  {
    TryStartsStep(hint, k, line, i);
  }

  /** One iteration of the search loop: take the first fitting start, or go on from i + 1. */
  lemma TryStartsStep(hint: Hint, k: nat, line: Line, i: nat)
    requires k < |hint| && i + hint[k] <= |line| && PlaceSegmentLeft(hint[k], line, i).Some?
    ensures var p := PlaceSegmentLeft(hint[k], line, i).value;
      var next := RecPlaceLeft(hint, k + 1, Fill(line, p, hint[k]), p + hint[k] + 1);
      TryStarts(hint, k, line, i) == if next.Some? then Some([p] + next.value) else TryStarts(hint, k, line, i + 1)
  {
  }

  /**
   * The first fitting start from i is at most the start u[0] of any valid
   * vector: when equal, the rest of u is valid after it; when smaller, u is
   * still valid from i + 1.
   */
  lemma FirstFit(hint: Hint, k: nat, line: Line, i: nat, u: seq<nat>) returns (p: nat)
    requires k < |hint| && ValidFrom(hint, k, line, i, u)
    ensures PlaceSegmentLeft(hint[k], line, i) == Some(p)
    ensures i + hint[k] <= |line| && i <= p <= u[0]
    ensures p == u[0] ==> ValidFrom(hint, k + 1, Fill(line, p, hint[k]), p + hint[k] + 1, u[1..])
    ensures p < u[0] ==> ValidFrom(hint, k, line, i + 1, u)
  {
    assert Fits(hint[k], line, u[0]);
    p := PlaceSegmentLeft(hint[k], line, i).value;
  }

  /** The snapshot the search reaches: the windows `t` of segments k.. filled in one after another. */
  function FillWindows(line: Line, hint: Hint, k: nat, t: seq<nat>): (r: Line)
    requires k + |t| <= |hint|
    ensures |r| == |line|
    decreases |t|
  {
    if t == [] then line else FillWindows(Fill(line, t[0], hint[k]), hint, k + 1, t[1..])
  }

  /** Cell by cell, the snapshot is Filled on the windows and the original line elsewhere. */
  lemma {:induction false} FillWindowsAt(line: Line, hint: Hint, k: nat, t: seq<nat>)
    requires k + |t| <= |hint|
    ensures forall x :: 0 <= x < |line| ==>
      FillWindows(line, hint, k, t)[x] == if Covered(hint[k..], t, x) then Filled else line[x]
    decreases |t|
  {
    if t != [] {
      var line' := Fill(line, t[0], hint[k]);
      FillWindowsAt(line', hint, k + 1, t[1..]);
      forall x | 0 <= x < |line|
        ensures Covered(hint[k..], t, x) <==> InWindow(hint[k..], t, 0, x) || Covered(hint[k + 1..], t[1..], x)
      {
        if Covered(hint[k..], t, x) {
          var j :| InWindow(hint[k..], t, j, x);
          if j > 0 {
            assert InWindow(hint[k + 1..], t[1..], j - 1, x);
          }
        }
        if Covered(hint[k + 1..], t[1..], x) {
          var j :| InWindow(hint[k + 1..], t[1..], j, x);
          assert InWindow(hint[k..], t, j + 1, x);
        }
      }
    } else {
      forall x | 0 <= x < |line|
        ensures !Covered(hint[k..], t, x)
      {
      }
    }
  }

  /** One step of the search in flat terms: placing segment k first, then the rest after one gap. */
  lemma PlacedStep(hint: Hint, k: nat, line: Line, t: seq<nat>)
    requires k < |hint| && |t| == |hint| - k
    ensures Placed(hint[k..], line, t) <==>
      Fits(hint[k], line, t[0]) && (|t| > 1 ==> t[0] + hint[k] + 1 <= t[1]) &&
      Placed(hint[k + 1..], Fill(line, t[0], hint[k]), t[1..])
  {
    var h, h' := hint[k..], hint[k + 1..];
    var t' := t[1..];
    var line' := Fill(line, t[0], hint[k]);
    assert h[0] == hint[k];
    assert forall j :: 0 <= j < |t'| ==> h'[j] == h[j + 1] && t'[j] == t[j + 1];
    if Placed(h, line, t) {
      OrderedPairwise(h, t, |line|);
      forall x | t[0] <= x < t[0] + hint[k]
        ensures line[x] != Empty
      {
        assert InWindow(h, t, 0, x);
      }
      forall j, x | InWindow(h', t', j, x)
        ensures 0 <= x < |line'| && line'[x] != Empty
      {
        assert InWindow(h, t, j + 1, x);
        assert t[0] + h[0] < t[j + 1];
      }
    }
    if Fits(hint[k], line, t[0]) && (|t| > 1 ==> t[0] + hint[k] + 1 <= t[1]) && Placed(h', line', t') {
      assert Ordered(h, t, |line|) by {
        forall j | 0 < j < |t|
          ensures t[j - 1] + h[j - 1] < t[j]
        {
          if j > 1 {
            assert t'[j - 2] + h'[j - 2] < t'[j - 1];
          }
        }
      }
      OrderedPairwise(h, t, |line|);
      forall j, x | InWindow(h, t, j, x)
        ensures 0 <= x < |line| && line[x] != Empty
      {
        if j > 0 {
          assert InWindow(h', t', j - 1, x);
          assert t[0] + h[0] < t[j];
        }
      }
    }
  }

  /** The recursive search condition, flattened: placed windows, the floor, and the runs of the filled snapshot. */
  lemma {:induction false} ValidFromFlat(hint: Hint, k: nat, line: Line, start: nat, t: seq<nat>)
    requires k <= |hint|
    ensures ValidFrom(hint, k, line, start, t) <==>
      |t| == |hint| - k && Placed(hint[k..], line, t) && (|t| > 0 ==> start <= t[0]) &&
      Runs(FillWindows(line, hint, k, t)) == hint
    decreases |hint| - k
  {
    if |t| == |hint| - k && k < |hint| {
      var line' := Fill(line, t[0], hint[k]);
      ValidFromFlat(hint, k + 1, line', t[0] + hint[k] + 1, t[1..]);
      PlacedStep(hint, k, line, t);
    } else if |t| == |hint| - k {
      assert Placed(hint[k..], line, t);
    }
  }

  /**
   * A valid start vector is exactly a completion of the line: windows in
   * order, at least one cell apart, on no Empty cell, and covering every
   * Filled cell (for a hint of positive lengths; no other hint has one).
   */
  lemma ValidStartsIff(hint: Hint, line: Line, s: seq<nat>)
    ensures ValidStarts(hint, line, s) <==> Positive(hint) && Solution(hint, line, s)
  {
    ValidFromFlat(hint, 0, line, 0, s);
    assert hint[0..] == hint;
    if |s| == |hint| {
      var L := FillWindows(line, hint, 0, s);
      FillWindowsAt(line, hint, 0, s);
      if ValidStarts(hint, line, s) {
        NoStrayFilled(L, hint, s);
        forall x | 0 <= x < |line| && line[x] == Filled
          ensures Covered(hint, s, x)
        {
          assert L[x] == Filled;
        }
      }
      if Positive(hint) && Solution(hint, line, s) {
        RunsOfWindows(L, hint, s);
      }
    }
  }

  /** A per-cell placement: Some(j) when segment j owns the cell, None when no segment does. */
  type Placement = seq<Option<nat>>

  /**
   * The owner of cell `x` once windows 0 .. k-1 have been written in order:
   * the last of them that covers `x`, if any.
   */
  function LabelAt(hint: Hint, s: seq<nat>, x: int, k: nat): (r: Option<nat>)
    requires k <= |s|
    ensures r.Some? ==> r.value < k && InWindow(hint, s, r.value, x)
    ensures r.Some? ==> forall j :: r.value < j < k ==> !InWindow(hint, s, j, x)
    ensures r.None? ==> forall j :: 0 <= j < k ==> !InWindow(hint, s, j, x)
  {
    if k == 0 then None
    else if InWindow(hint, s, k - 1, x) then Some(k - 1)
    else LabelAt(hint, s, x, k - 1)
  }

  /** The placement of a line of length `n` that the start vector `s` describes. */
  function Labels(hint: Hint, s: seq<nat>, n: nat): (p: Placement)
    ensures |p| == n
  {
    seq(n, x requires 0 <= x < n => LabelAt(hint, s, x, |s|))
  }

  /** For ordered windows each cell has at most one owner, so a label names exactly the window covering the cell. */
  lemma LabelsOfOrdered(hint: Hint, s: seq<nat>, n: nat)
    requires Ordered(hint, s, n)
    ensures forall x, j :: 0 <= x < n ==> (Labels(hint, s, n)[x] == Some(j) <==> InWindow(hint, s, j, x))
    ensures forall x :: 0 <= x < n ==> (Labels(hint, s, n)[x].None? <==> !Covered(hint, s, x))
  {
    forall x | 0 <= x < n
      ensures forall j :: Labels(hint, s, n)[x] == Some(j) <==> InWindow(hint, s, j, x)
      ensures Labels(hint, s, n)[x].None? <==> !Covered(hint, s, x)
    {
      LabelOfOrdered(hint, s, n, x);
    }
  }

  /** The label of one cell under ordered windows names exactly the window covering it. */
  lemma LabelOfOrdered(hint: Hint, s: seq<nat>, n: nat, x: nat)
    requires Ordered(hint, s, n) && x < n
    ensures forall j :: Labels(hint, s, n)[x] == Some(j) <==> InWindow(hint, s, j, x)
    ensures Labels(hint, s, n)[x].None? <==> !Covered(hint, s, x)
  {
    OrderedPairwise(hint, s, n);
  }

  /**
   * place_in_segment_placements: mark the cells of the window [pos, pos + seg)
   * as owned by segment `segIndex`, in place.
   */
  method PlaceInSegmentPlacements(placements: array<Option<nat>>, seg: nat, segIndex: nat, pos: nat)
    requires pos + seg <= placements.Length
    modifies placements
    ensures forall x :: 0 <= x < placements.Length ==>
      placements[x] == if pos <= x < pos + seg then Some(segIndex) else old(placements[x])
  {
    for x := pos to pos + seg
      invariant forall y :: 0 <= y < placements.Length ==>
        placements[y] == if pos <= y < x then Some(segIndex) else old(placements[y])
    {
      placements[x] := Some(segIndex);
    }
  }

  /**
   * place_segment_positions: start from a line of unowned cells and write
   * the window of every segment in hint order.
   */
  method PlaceSegmentPositions(positions: seq<nat>, hint: Hint, size: nat) returns (p: Placement)
    requires |positions| == |hint|
    requires forall j :: 0 <= j < |positions| ==> positions[j] + hint[j] <= size
    ensures p == Labels(hint, positions, size)
  {
    var placements := new Option<nat>[size](_ => None);
    for k := 0 to |positions|
      invariant forall x :: 0 <= x < size ==> placements[x] == LabelAt(hint, positions, x, k)
    {
      PlaceInSegmentPlacements(placements, hint[k], k, positions[k]);
    }
    p := placements[..];
  }

  /** The value `Game::place_all_left` computes: the leftmost starts, as a placement. */
  function LeftPlacement(hint: Hint, line: Line): Option<Placement> {
    match RecPlaceLeft(hint, 0, line, 0)
    case None => None
    case Some(s) => Some(Labels(hint, s, |line|))
  }

  /** Game::place_all_left: search the starts, then write them out as a placement. */
  method PlaceAllLeft(hint: Hint, line: Line) returns (r: Option<Placement>)
    ensures r == LeftPlacement(hint, line)
  {
    var positions := RecPlaceLeft(hint, 0, line, 0);
    match positions
    case None =>
      r := None;
    case Some(s) =>
      ValidStartsIff(hint, line, s);
      var p := PlaceSegmentPositions(s, hint, |line|);
      r := Some(p);
  }

  /**
   * The search returns the lexicographically least valid start vector, and
   * nothing exactly when no valid start vector exists.
   */
  lemma SearchLeftmost(hint: Hint, line: Line)
    ensures RecPlaceLeft(hint, 0, line, 0).Some? <==> Satisfiable(hint, line)
    ensures RecPlaceLeft(hint, 0, line, 0).Some? ==>
      var s := RecPlaceLeft(hint, 0, line, 0).value;
      ValidStarts(hint, line, s) && forall u :: ValidStarts(hint, line, u) ==> LexLeq(s, u)
  {
    forall u | ValidStarts(hint, line, u)
      ensures RecPlaceLeft(hint, 0, line, 0).Some? && LexLeq(RecPlaceLeft(hint, 0, line, 0).value, u)
    {
      RecLeast(hint, 0, line, 0, u);
    }
    if RecPlaceLeft(hint, 0, line, 0).Some? {
      assert ValidStarts(hint, line, RecPlaceLeft(hint, 0, line, 0).value);
    }
  }

  /** Each cell of a placement agrees with the line: Empty cells are unowned and Filled cells owned. */
  predicate Agrees(line: Line, p: Placement) {
    |p| == |line| &&
    forall x :: 0 <= x < |line| ==>
      (line[x] == Empty ==> p[x].None?) && (line[x] == Filled ==> p[x].Some?)
  }

  /** A placement is the picture of a completion of the line: the windows of a solution's starts. */
  ghost predicate SolutionPlacement(hint: Hint, line: Line, p: Placement, s: seq<nat>) {
    Positive(hint) && Solution(hint, line, s) && p == Labels(hint, s, |line|)
  }

  /**
   * Shape of the leftmost placement: it has one cell per line cell, and is
   * the picture of the lexicographically least valid start vector, so label j
   * marks exactly the window of segment j; when there is no placement, the
   * line has no completion.
   */
  lemma LeftPlacementShape(hint: Hint, line: Line)
    ensures LeftPlacement(hint, line).None? <==> !Satisfiable(hint, line)
    ensures LeftPlacement(hint, line).Some? ==>
      var p := LeftPlacement(hint, line).value;
      var s := RecPlaceLeft(hint, 0, line, 0).value;
      SolutionPlacement(hint, line, p, s) && Agrees(line, p) &&
      (forall x, j :: 0 <= x < |line| ==> (p[x] == Some(j) <==> InWindow(hint, s, j, x))) &&
      (forall u :: ValidStarts(hint, line, u) ==> LexLeq(s, u))
  {
    SearchLeftmost(hint, line);
    if RecPlaceLeft(hint, 0, line, 0).Some? {
      var s := RecPlaceLeft(hint, 0, line, 0).value;
      ValidStartsIff(hint, line, s);
      LabelsOfOrdered(hint, s, |line|);
    }
  }
}
