/** Toboggan Trajectory: walk down a map that repeats to the right, counting the
    trees (`#`) met on a slope. */
module Day03 {
  import opened Wrappers

  /** `mapLines[row][col % rowWidth]` with `rowWidth` the length of the first row:
      undefined when that width is 0 (the index is NaN) or the row is shorter. */
  function CellAt(mapLines: seq<string>, row: nat, col: nat): Option<char>
    requires row < |mapLines|
  {
    var width := |mapLines[0]|;
    if width == 0 || col % width >= |mapLines[row]| then None else Some(mapLines[row][col % width])
  }

  /** Step k of the walk reads a tree. */
  predicate TreeAtStep(mapLines: seq<string>, right: nat, down: nat, k: nat)
    requires k * down < |mapLines|
  {
    CellAt(mapLines, k * down, k * right) == Some('#')
  }

  /** The number of visited rows 0, down, 2*down, ... below the height: the ceiling of height/down. */
  function StepCount(height: nat, down: nat): nat
    requires down > 0
  {
    (height + down - 1) / down
  }

  /** Row k*down exists exactly when k is one of the first StepCount steps. */
  lemma StepCountExact(height: nat, down: nat, k: nat)
    requires down > 0
    ensures k * down < height <==> k < StepCount(height, down)
  {
    var q := StepCount(height, down);
    assert height + down - 1 == q * down + (height + down - 1) % down;
    if k < q {
      assert k * down <= (q - 1) * down by { MulMonotone(k, q - 1, down); }
    } else {
      assert q * down <= k * down by { MulMonotone(q, k, down); }
    }
  }

  lemma MulMonotone(a: nat, b: nat, c: nat)
    requires a <= b
    ensures a * c <= b * c
  {
  }

  /** The number of trees met in the first k steps. */
  function TreesInSteps(mapLines: seq<string>, right: nat, down: nat, k: nat): nat
    requires down > 0 && k <= StepCount(|mapLines|, down)
  {
    if k == 0 then 0
    else
      StepCountExact(|mapLines|, down, k - 1);
      TreesInSteps(mapLines, right, down, k - 1) + (if TreeAtStep(mapLines, right, down, k - 1) then 1 else 0)
  }

  /** The trees met on the whole slope. */
  function TreesOnSlope(mapLines: seq<string>, right: nat, down: nat): nat
    requires down > 0
  {
    TreesInSteps(mapLines, right, down, StepCount(|mapLines|, down))
  }

  /** `countTreesOnSlope`. The source reads the width of the first row, so the map must have one;
      a zero down-step would never leave the first row. */
  method CountTreesOnSlope(mapLines: seq<string>, rightStep: nat, downStep: nat) returns (treeCount: nat)
    requires |mapLines| > 0 && downStep > 0
    ensures treeCount == TreesOnSlope(mapLines, rightStep, downStep)
  {
    var mapHeight := |mapLines|;
    var rowWidth := |mapLines[0]|;
    var row, col := 0, 0;
    treeCount := 0;
    ghost var k: nat := 0;
    while row < mapHeight
      invariant row == k * downStep && col == k * rightStep
      invariant k <= StepCount(mapHeight, downStep)
      invariant treeCount == TreesInSteps(mapLines, rightStep, downStep, k)
      decreases mapHeight - row
    {
      StepCountExact(mapHeight, downStep, k);
      StepCountExact(mapHeight, downStep, k + 1);
      var cell := if rowWidth == 0 || col % rowWidth >= |mapLines[row]| then None
                  else Some(mapLines[row][col % rowWidth]);
      if cell == Some('#') {
        treeCount := treeCount + 1;
      }
      row := row + downStep;
      col := col + rightStep;
      k := k + 1;
    }
    StepCountExact(mapHeight, downStep, k);
  }

  /** At most one tree per visited row: the count is at most the ceiling of height/down. */
  lemma {:induction false} TreesBounded(mapLines: seq<string>, right: nat, down: nat, k: nat)
    requires down > 0 && k <= StepCount(|mapLines|, down)
    ensures TreesInSteps(mapLines, right, down, k) <= k
  {
    if k > 0 {
      TreesBounded(mapLines, right, down, k - 1);
    }
  }

  /** A map with no `#` gives no trees on any slope. */
  lemma {:induction false} NoTreesNoCount(mapLines: seq<string>, right: nat, down: nat, k: nat)
    requires down > 0 && k <= StepCount(|mapLines|, down)
    requires forall r, c :: 0 <= r < |mapLines| && 0 <= c < |mapLines[r]| ==> mapLines[r][c] != '#'
    ensures TreesInSteps(mapLines, right, down, k) == 0
  {
    if k > 0 {
      NoTreesNoCount(mapLines, right, down, k - 1);
      StepCountExact(|mapLines|, down, k - 1);
    }
  }

  /** The five slopes of part 2, as (right, down). */
  const Slopes: seq<(nat, nat)> := [(1, 1), (3, 1), (5, 1), (7, 1), (1, 2)]

  function ProductOfTrees(mapLines: seq<string>, slopes: seq<(nat, nat)>): nat
    requires forall i :: 0 <= i < |slopes| ==> slopes[i].1 > 0
  {
    if slopes == [] then 1
    else ProductOfTrees(mapLines, slopes[..|slopes| - 1]) * TreesOnSlope(mapLines, slopes[|slopes| - 1].0, slopes[|slopes| - 1].1)
  }

  /** The product loop of part 2, over any list of slopes. */
  method MultiplySlopes(mapLines: seq<string>, slopes: seq<(nat, nat)>) returns (product: nat)
    requires |mapLines| > 0 && forall i :: 0 <= i < |slopes| ==> slopes[i].1 > 0
    ensures product == ProductOfTrees(mapLines, slopes)
  {
    product := 1;
    for i := 0 to |slopes|
      invariant product == ProductOfTrees(mapLines, slopes[..i])
    {
      var (r, d) := slopes[i];
      var trees := CountTreesOnSlope(mapLines, r, d);
      assert slopes[..i + 1][..i] == slopes[..i];
      product := product * trees;
    }
    assert slopes[..|slopes|] == slopes;
  }

  /** Part 1 is the slope right 3, down 1; part 2 multiplies the counts of the five slopes. */
  method Solve(mapLines: seq<string>) returns (part1: nat, part2: nat)
    requires |mapLines| > 0
    ensures part1 == TreesOnSlope(mapLines, 3, 1)
    ensures part2 == TreesOnSlope(mapLines, 1, 1) * TreesOnSlope(mapLines, 3, 1) * TreesOnSlope(mapLines, 5, 1)
                     * TreesOnSlope(mapLines, 7, 1) * TreesOnSlope(mapLines, 1, 2)
  {
    part1 := CountTreesOnSlope(mapLines, 3, 1);
    part2 := MultiplySlopes(mapLines, Slopes);
    FiveSlopes(mapLines);
  }

  lemma FiveSlopes(mapLines: seq<string>)
    ensures ProductOfTrees(mapLines, Slopes) == TreesOnSlope(mapLines, 1, 1) * TreesOnSlope(mapLines, 3, 1)
              * TreesOnSlope(mapLines, 5, 1) * TreesOnSlope(mapLines, 7, 1) * TreesOnSlope(mapLines, 1, 2)
  {
    var a, b, c, d, e := TreesOnSlope(mapLines, 1, 1), TreesOnSlope(mapLines, 3, 1),
      TreesOnSlope(mapLines, 5, 1), TreesOnSlope(mapLines, 7, 1), TreesOnSlope(mapLines, 1, 2);
    var s1: seq<(nat, nat)> := [(1, 1)];
    var s2 := s1 + [(3, 1)];
    var s3 := s2 + [(5, 1)];
    var s4 := s3 + [(7, 1)];
    assert s1[..0] == [] && s2[..1] == s1 && s3[..2] == s2 && s4[..3] == s3 && Slopes[..4] == s4;
    assert ProductOfTrees(mapLines, s1) == a;
    assert ProductOfTrees(mapLines, s2) == a * b;
    assert ProductOfTrees(mapLines, s3) == a * b * c;
    assert ProductOfTrees(mapLines, s4) == a * b * c * d;
  }
}
