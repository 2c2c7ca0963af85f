/**
 * The "next closest point" component (NCP/NCPComponent.cs).
 *
 * `supps` grows a list of obstacle points one candidate at a time. Each
 * step scores every candidate by the product of its distances to all the
 * current obstacles, keeps a running best `(minGap, newIdx)` under the
 * condition `minGap == 0 || (gap < minGap && !obstacles.Contains(c))`,
 * appends `candidates[newIdx]` to a copy of the obstacles and recurses
 * until the list holds `steps` points. The component calls it with
 * `steps = s + |o|`.
 *
 * Distances are squared (see module Geometry), so the score here is the
 * square of the source's score and every decision of the scan agrees.
 */
module NextClosestPoint {
  import opened Geometry

  /*
   * Specification
   */

  /** The score of `p`: the product of its (squared) distances to every
    * obstacle, multiplied in list order from the seed 1. */
  function Score(obstacles: seq<Point3>, p: Point3): (g: nat)
    ensures g == 0 <==> p in obstacles
  {
    if obstacles == [] then 1
    else
      var rest, last := obstacles[..|obstacles| - 1], obstacles[|obstacles| - 1];
      assert obstacles == rest + [last];
      Score(rest, p) * SqDist(last, p)
  }

  /** The running best of the candidate scan: the smallest gap seen and
    * the index it was seen at. */
  datatype Running = Running(minGap: nat, newIdx: nat)

  /** The running best after the scan has looked at `candidates[..n]`. */
  function Scan(candidates: seq<Point3>, obstacles: seq<Point3>, n: nat): (b: Running)
    requires n <= |candidates|
    ensures 0 < n ==> b.newIdx < n && b.minGap == Score(obstacles, candidates[b.newIdx])
  {
    if n == 0 then Running(0, 0)
    else
      var b := Scan(candidates, obstacles, n - 1);
      var gap := Score(obstacles, candidates[n - 1]);
      if b.minGap == 0 || (gap < b.minGap && candidates[n - 1] !in obstacles)
      then Running(gap, n - 1)
      else b
  }

  /** The index one step of `supps` picks (0 when there is no candidate). */
  function PickIndex(candidates: seq<Point3>, obstacles: seq<Point3>): (i: nat)
    ensures 0 < |candidates| ==> i < |candidates|
  {
    Scan(candidates, obstacles, |candidates|).newIdx
  }

  /** `r` is the first candidate, among those not yet obstacles, whose
    * score is the least. */
  ghost predicate FirstLeastScoring(candidates: seq<Point3>, obstacles: seq<Point3>, r: nat, n: nat)
    requires n <= |candidates|
  {
    && r < n
    && candidates[r] !in obstacles
    && (forall j :: 0 <= j < n && candidates[j] !in obstacles ==>
          Score(obstacles, candidates[r]) <= Score(obstacles, candidates[j]))
    && (forall j :: 0 <= j < r && candidates[j] !in obstacles ==>
          Score(obstacles, candidates[r]) < Score(obstacles, candidates[j]))
  }

  ghost predicate AllPlaced(candidates: seq<Point3>, obstacles: seq<Point3>, n: nat)
    requires n <= |candidates|
  {
    forall j :: 0 <= j < n ==> candidates[j] in obstacles
  }

  /** What the scan over `candidates[..n]` selects: the first least-scoring
    * candidate that is not an obstacle, or, when every candidate is
    * already an obstacle, the last one looked at. */
  lemma {:induction false} ScanSelects(candidates: seq<Point3>, obstacles: seq<Point3>, n: nat)
    requires 0 < n <= |candidates|
    ensures AllPlaced(candidates, obstacles, n) ==> Scan(candidates, obstacles, n).newIdx == n - 1
    ensures !AllPlaced(candidates, obstacles, n) ==>
              FirstLeastScoring(candidates, obstacles, Scan(candidates, obstacles, n).newIdx, n)
  {
    var b := Scan(candidates, obstacles, n);
    var c := candidates[n - 1];
    var gap := Score(obstacles, c);
    if n == 1 {
      assert b.newIdx == 0;
    } else {
      ScanSelects(candidates, obstacles, n - 1);
      var prev := Scan(candidates, obstacles, n - 1);
      if AllPlaced(candidates, obstacles, n - 1) {
        // every earlier candidate scored 0, so the sentinel is still 0
        assert prev.minGap == 0;
        assert b.newIdx == n - 1;
        if !AllPlaced(candidates, obstacles, n) {
          assert c !in obstacles;
          assert FirstLeastScoring(candidates, obstacles, n - 1, n);
        }
      } else {
        assert FirstLeastScoring(candidates, obstacles, prev.newIdx, n - 1);
        assert prev.minGap > 0;
        if gap < prev.minGap && c !in obstacles {
          assert b.newIdx == n - 1;
          assert FirstLeastScoring(candidates, obstacles, n - 1, n);
        } else {
          assert b == prev;
          assert FirstLeastScoring(candidates, obstacles, prev.newIdx, n);
        }
      }
    }
  }

  /** The pick of one step: in range, and either the first least-scoring
    * candidate that is not an obstacle or, when all candidates are
    * obstacles, the last candidate. */
  lemma PickIndexSelects(candidates: seq<Point3>, obstacles: seq<Point3>)
    requires 0 < |candidates|
    ensures PickIndex(candidates, obstacles) < |candidates|
    ensures (exists j :: 0 <= j < |candidates| && candidates[j] !in obstacles) ==>
              FirstLeastScoring(candidates, obstacles, PickIndex(candidates, obstacles), |candidates|)
    ensures (forall j :: 0 <= j < |candidates| ==> candidates[j] in obstacles) ==>
              PickIndex(candidates, obstacles) == |candidates| - 1
  {
    ScanSelects(candidates, obstacles, |candidates|);
  }

  /** The characterisation above names exactly one index. */
  lemma FirstLeastScoringUnique(candidates: seq<Point3>, obstacles: seq<Point3>, r1: nat, r2: nat)
    requires FirstLeastScoring(candidates, obstacles, r1, |candidates|)
    requires FirstLeastScoring(candidates, obstacles, r2, |candidates|)
    ensures r1 == r2
  {
  }

  /** With no obstacles every score is 1, so the first candidate wins. */
  lemma {:induction false} FirstPickWithoutObstacles(candidates: seq<Point3>)
    requires 0 < |candidates|
    ensures PickIndex(candidates, []) == 0
  {
    PickIndexSelects(candidates, []);
    assert candidates[0] !in [];
  }

  /** The sentinel quirk: when every candidate is already an obstacle the
    * last candidate is appended again, a duplicate. */
  lemma {:induction false} AllPlacedAppendsDuplicate(candidates: seq<Point3>, obstacles: seq<Point3>)
    requires 0 < |candidates|
    requires forall j :: 0 <= j < |candidates| ==> candidates[j] in obstacles
    ensures Extend(candidates, obstacles) == obstacles + [candidates[|candidates| - 1]]
    ensures Extend(candidates, obstacles)[|obstacles|] in obstacles
  {
    PickIndexSelects(candidates, obstacles);
  }

  /** One step of `supps`: the obstacles with the picked candidate appended. */
  function Extend(candidates: seq<Point3>, obstacles: seq<Point3>): (r: seq<Point3>)
    requires 0 < |candidates|
    ensures |r| == |obstacles| + 1 && r[..|obstacles|] == obstacles
    ensures r[|obstacles|] in candidates
  {
    obstacles + [candidates[PickIndex(candidates, obstacles)]]
  }

  /** The result of `supps(steps, candidates, obstacles)`. It terminates
    * only when `steps` is at least the number of obstacles, and it needs
    * a candidate whenever a step is left to take. */
  function Selection(steps: int, candidates: seq<Point3>, obstacles: seq<Point3>): (r: seq<Point3>)
    requires |obstacles| <= steps
    requires |obstacles| < steps ==> 0 < |candidates|
    ensures |r| == steps
    ensures r[..|obstacles|] == obstacles
    decreases steps - |obstacles|
  {
    if |obstacles| == steps then obstacles
    else
      var r := Selection(steps, candidates, Extend(candidates, obstacles));
      assert r[..|obstacles|] == r[..|obstacles| + 1][..|obstacles|];
      r
  }

  /** Each appended point is the pick of the step that appended it: the
    * pick made against all the points before it. */
  ghost predicate PicksInOrder(candidates: seq<Point3>, obstacles: seq<Point3>, r: seq<Point3>)
    requires 0 < |candidates|
  {
    forall k :: |obstacles| <= k < |r| ==> r[k] == candidates[PickIndex(candidates, r[..k])]
  }

  /** The result of `supps` appends the picks in selection order. */
  lemma {:induction false} SelectionPicksInOrder(steps: int, candidates: seq<Point3>, obstacles: seq<Point3>)
    requires |obstacles| < steps && 0 < |candidates|
    ensures PicksInOrder(candidates, obstacles, Selection(steps, candidates, obstacles))
    decreases steps - |obstacles|
  {
    var r := Selection(steps, candidates, obstacles);
    var next := Extend(candidates, obstacles);
    assert r == Selection(steps, candidates, next);
    if |next| < steps {
      SelectionPicksInOrder(steps, candidates, next);
    }
    forall k | |obstacles| <= k < |r|
      ensures r[k] == candidates[PickIndex(candidates, r[..k])]
    {
      if k == |obstacles| {
        assert r[..k + 1] == next;
        assert r[..k] == obstacles;
      }
    }
  }

  /** Every appended point is one of the candidates. */
  lemma {:induction false} SelectionFromCandidates(steps: int, candidates: seq<Point3>, obstacles: seq<Point3>)
    requires |obstacles| <= steps
    requires |obstacles| < steps ==> 0 < |candidates|
    ensures forall k :: |obstacles| <= k < steps ==> Selection(steps, candidates, obstacles)[k] in candidates
    decreases steps - |obstacles|
  {
    if |obstacles| < steps {
      var next := Extend(candidates, obstacles);
      SelectionFromCandidates(steps, candidates, next);
      assert Selection(steps, candidates, obstacles)[..|next|] == next;
    }
  }

  /** Conversely, a list of the right length that starts with the
    * obstacles and appends each step's pick is the result of `supps`. */
  lemma {:induction false} PicksInOrderIsSelection(steps: int, candidates: seq<Point3>, obstacles: seq<Point3>, r: seq<Point3>)
    requires 0 < |candidates| && |obstacles| <= steps
    requires |r| == steps && r[..|obstacles|] == obstacles
    requires PicksInOrder(candidates, obstacles, r)
    ensures r == Selection(steps, candidates, obstacles)
    decreases steps - |obstacles|
  {
    if |obstacles| == steps {
      assert r == r[..|obstacles|];
    } else {
      var next := Extend(candidates, obstacles);
      assert r[..|obstacles| + 1] == r[..|obstacles|] + [r[|obstacles|]];
      assert r[..|next|] == next;
      PicksInOrderIsSelection(steps, candidates, next, r);
    }
  }

  /** The scores of the worked example below: 0, 100 and 50 against the
    * single obstacle at the origin. */
  lemma WorkedExampleScores()
    ensures Score([Point3(0, 0, 0)], Point3(0, 0, 0)) == 0
    ensures Score([Point3(0, 0, 0)], Point3(10, 0, 0)) == 100
    ensures Score([Point3(0, 0, 0)], Point3(5, 5, 0)) == 50
  {
    assert [Point3(0, 0, 0)][..0] == [];
  }

  /** Candidates (0,0,0), (10,0,0), (5,5,0) against the obstacle (0,0,0),
    * one step: the coincident first candidate is taken on the sentinel,
    * displaced unconditionally by (10,0,0), which (5,5,0) beats with the
    * smaller score 50 < 100. The least product wins, not the largest. */
  lemma WorkedExample()
    ensures Selection(2, [Point3(0, 0, 0), Point3(10, 0, 0), Point3(5, 5, 0)], [Point3(0, 0, 0)])
         == [Point3(0, 0, 0), Point3(5, 5, 0)]
  {
    var c := [Point3(0, 0, 0), Point3(10, 0, 0), Point3(5, 5, 0)];
    var o := [Point3(0, 0, 0)];
    WorkedExampleScores();
    assert Scan(c, o, 1) == Running(0, 0);
    assert Scan(c, o, 2) == Running(100, 1);
    assert Scan(c, o, 3) == Running(50, 2);
    assert Extend(c, o) == [Point3(0, 0, 0), Point3(5, 5, 0)];
  }

  /*
   * Implementation
   */

  /** The gap of one candidate: the product of its distances to the
    * obstacles, accumulated from 1. It is 0 exactly for an obstacle. */
  method Gap(obstacles: seq<Point3>, p: Point3) returns (gap: nat)
    ensures gap == Score(obstacles, p)
    ensures gap == 0 <==> p in obstacles
  {
    gap := 1;
    for j := 0 to |obstacles|
      invariant gap == Score(obstacles[..j], p)
    {
      var d := SqDist(obstacles[j], p);
      assert obstacles[..j + 1][..j] == obstacles[..j];
      assert gap * d == Score(obstacles[..j + 1], p);
      gap := gap * d;
    }
    assert obstacles[..|obstacles|] == obstacles;
  }

  /** The scan of one step of `supps`: each candidate's gap, and the
    * running best updated under the sentinel condition. */
  method NextIndex(candidates: seq<Point3>, obstacles: seq<Point3>) returns (newIdx: nat)
    ensures newIdx == PickIndex(candidates, obstacles)
    ensures 0 < |candidates| ==> newIdx < |candidates|
  {
    newIdx := 0;
    var minGap: nat := 0;
    for i := 0 to |candidates|
      invariant Running(minGap, newIdx) == Scan(candidates, obstacles, i)
    {
      var gap := Gap(obstacles, candidates[i]);
      if minGap == 0 || (gap < minGap && candidates[i] !in obstacles) {
        minGap := gap;
        newIdx := i;
      }
    }
  }

  /** `supps` as a loop with an accumulator: each round copies the
    * obstacles into a fresh list, appends the picked candidate and goes
    * round again until the list holds `steps` points. */
  method Supps(steps: int, candidates: seq<Point3>, obstacles: seq<Point3>) returns (result: seq<Point3>)
    requires |obstacles| <= steps
    requires |obstacles| < steps ==> 0 < |candidates|
    ensures result == Selection(steps, candidates, obstacles)
  {
    result := obstacles;
    while |result| != steps
      invariant |obstacles| <= |result| <= steps
      invariant Selection(steps, candidates, result) == Selection(steps, candidates, obstacles)
      decreases steps - |result|
    {
      var newObstacles: seq<Point3> := [];
      for k := 0 to |result|
        invariant newObstacles == result[..k]
      {
        newObstacles := newObstacles + [result[k]];
      }
      assert newObstacles == result;
      var newIdx := NextIndex(candidates, result);
      newObstacles := newObstacles + [candidates[newIdx]];
      assert newObstacles == Extend(candidates, result);
      result := newObstacles;
    }
  }

  /** The component: `s` more points chosen from `c` after the obstacles
    * `o`. The source recurses forever for a negative `s` and indexes an
    * empty candidate list when `s > 0` and `c` is empty. */
  method NextClosestPoints(c: seq<Point3>, o: seq<Point3>, s: int) returns (centres: seq<Point3>)
    requires 0 <= s
    requires 0 < s ==> 0 < |c|
    ensures centres == Selection(s + |o|, c, o)
    ensures |centres| == |o| + s
    ensures centres[..|o|] == o
    ensures forall k :: |o| <= k < |centres| ==> centres[k] in c
    ensures s == 0 ==> centres == o
  {
    centres := Supps(s + |o|, c, o);
    if 0 < s {
      SelectionFromCandidates(s + |o|, c, o);
    } else {
      assert centres == centres[..|o|];
    }
  }
}
