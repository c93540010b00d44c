/**
 * The two extreme placements bound every completion of a line: each segment
 * of any completion starts no earlier than in the leftmost placement and no
 * later than in the rightmost one. This is what makes the cells refine_line
 * decides (src/game.rs) hold in every completion.
 */
module Extremes {
  import opened Wrappers
  import opened LineMatcher
  import opened Windows
  import opened LeftPlacer
  import opened RightPlacer

  /** Segment by segment, the earlier of two starts. */
  function MinStarts(a: seq<nat>, b: seq<nat>): (w: seq<nat>)
    requires |a| == |b|
    ensures |w| == |a|
    ensures forall j :: 0 <= j < |a| ==> w[j] <= a[j] && w[j] <= b[j] && (w[j] == a[j] || w[j] == b[j])
  {
    seq(|a|, j requires 0 <= j < |a| => if a[j] <= b[j] then a[j] else b[j])
  }

  /**
   * A Filled cell covered by both completions is covered by their minimum:
   * of the two covering segments, the one with the larger index still
   * covers it there.
   */
  lemma MinCovers(hint: Hint, line: Line, a: seq<nat>, b: seq<nat>, x: nat)
    requires Solution(hint, line, a) && Solution(hint, line, b)
    requires x < |line| && line[x] == Filled
    ensures Covered(hint, MinStarts(a, b), x)
  {
    var ja :| InWindow(hint, a, ja, x);
    var jb :| InWindow(hint, b, jb, x);
    OrderedPairwise(hint, a, |line|);
    OrderedPairwise(hint, b, |line|);
    var w := MinStarts(a, b);
    if ja >= jb {
      assert InWindow(hint, w, ja, x);
    } else {
      assert InWindow(hint, w, jb, x);
    }
  }

  /** The segment-by-segment minimum of two completions is a completion. */
  lemma MinSolution(hint: Hint, line: Line, a: seq<nat>, b: seq<nat>)
    requires Solution(hint, line, a) && Solution(hint, line, b)
    ensures Solution(hint, line, MinStarts(a, b))
  {
    var w := MinStarts(a, b);
    forall j, x | InWindow(hint, w, j, x)
      ensures 0 <= x < |line| && line[x] != Empty
    {
      assert InWindow(hint, a, j, x) || InWindow(hint, b, j, x);
    }
    forall x | 0 <= x < |line| && line[x] == Filled
      ensures Covered(hint, w, x)
    {
      MinCovers(hint, line, a, b, x);
    }
  }

  /** A vector lexicographically no larger than one that is below it everywhere is equal to it. */
  lemma {:induction false} LexLeqPointwise(a: seq<nat>, w: seq<nat>)
    requires |a| == |w| && LexLeq(a, w)
    requires forall j :: 0 <= j < |a| ==> w[j] <= a[j]
    ensures a == w
    decreases |a|
  {
    if |a| > 0 {
      LexLeqPointwise(a[1..], w[1..]);
      assert a == [a[0]] + a[1..] && w == [w[0]] + w[1..];
    }
  }

  /** The lexicographically least valid start vector is also least segment by segment. */
  lemma LeastIsPointwise(hint: Hint, line: Line, s: seq<nat>, u: seq<nat>)
    requires ValidStarts(hint, line, s) && ValidStarts(hint, line, u)
    requires forall v :: ValidStarts(hint, line, v) ==> LexLeq(s, v)
    ensures |s| == |u| && forall j :: 0 <= j < |s| ==> s[j] <= u[j]
  {
    ValidStartsIff(hint, line, s);
    ValidStartsIff(hint, line, u);
    var w := MinStarts(s, u);
    MinSolution(hint, line, s, u);
    ValidStartsIff(hint, line, w);
    LexLeqPointwise(s, w);
  }

  /** Every completion starts each segment at or after the leftmost search does. */
  lemma LeftmostBelow(hint: Hint, line: Line, u: seq<nat>)
    requires ValidStarts(hint, line, u)
    ensures RecPlaceLeft(hint, 0, line, 0).Some?
    ensures var s := RecPlaceLeft(hint, 0, line, 0).value;
      |s| == |u| && forall j :: 0 <= j < |u| ==> s[j] <= u[j]
  {
    SearchLeftmost(hint, line);
    LeastIsPointwise(hint, line, RecPlaceLeft(hint, 0, line, 0).value, u);
  }

  /**
   * Every completion starts each segment at or before the rightmost
   * placement does; `r` is the start vector the rightmost placement draws.
   */
  lemma RightmostAbove(hint: Hint, line: Line, u: seq<nat>) returns (r: seq<nat>)
    requires ValidStarts(hint, line, u)
    ensures RightPlacement(hint, line).Some?
    ensures SolutionPlacement(hint, line, RightPlacement(hint, line).value, r)
    ensures |r| == |u| && forall j :: 0 <= j < |u| ==> u[j] <= r[j]
  {
    var n := |line|;
    ValidStartsIff(hint, line, u);
    MirrorValid(hint, line, u);
    var uu := FromRight(hint, u, n);
    LeftmostBelow(Rev(hint), Rev(line), uu);
    var t := RecPlaceLeft(Rev(hint), 0, Rev(line), 0).value;
    r := RightFromLeft(hint, line, t);
    forall j | 0 <= j < |u|
      ensures u[j] <= r[j]
    {
      var k := |u| - 1 - j;
      assert t[k] <= uu[k];
    }
  }

  /**
   * When the line has exactly one completion, place_all_left and
   * place_all_right agree: both draw the windows of that completion.
   */
  lemma UniqueCompletion(hint: Hint, line: Line, u: seq<nat>)
    requires ValidStarts(hint, line, u)
    requires forall v :: ValidStarts(hint, line, v) ==> v == u
    ensures LeftPlacement(hint, line) == RightPlacement(hint, line) == Some(Labels(hint, u, |line|))
  {
    LeftmostBelow(hint, line, u);
    assert ValidStarts(hint, line, RecPlaceLeft(hint, 0, line, 0).value);
    var r := RightmostAbove(hint, line, u);
    ValidStartsIff(hint, line, r);
  }
}
