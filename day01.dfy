/** Report Repair: find two (three) entries of the expense report that sum to 2020
    and return their product, using a set of the entries seen so far. */
module Day01 {
  import opened Wrappers

  const TargetSum := 2020

  /** Entries at positions i < j sum to the target. */
  predicate PairAt(a: seq<int>, i: int, j: int) {
    0 <= i < j < |a| && a[i] + a[j] == TargetSum
  }

  /** Entries at positions i < k < j sum to the target. */
  predicate TripleAt(a: seq<int>, i: int, k: int, j: int) {
    0 <= i < k < j < |a| && a[i] + a[k] + a[j] == TargetSum
  }

  /** Part 1. The answer comes from the pair whose later position is smallest;
      an entry is only paired with entries at earlier positions. */
  method SolvePart1(numbers: seq<int>) returns (r: Option<int>)
    ensures r.None? <==> forall i, j :: !PairAt(numbers, i, j)
    ensures r.Some? ==> exists i, j :: PairAt(numbers, i, j) && r.value == numbers[i] * numbers[j]
                                       && forall i', j' :: PairAt(numbers, i', j') ==> j <= j'
  {
    var seen: set<int> := {};
    for idx := 0 to |numbers|
      invariant seen == set k | 0 <= k < idx :: numbers[k]
      invariant forall i, j :: j < idx ==> !PairAt(numbers, i, j)
    {
      var n := numbers[idx];
      var needed := TargetSum - n;
      if needed in seen {
        var i :| 0 <= i < idx && numbers[i] == needed;
        assert PairAt(numbers, i, idx);
        return Some(n * needed);
      }
      seen := seen + {n};
    }
    return None;
  }

  /** Part 2. For each first position, a pair search over the later entries. */
  method SolvePart2(numbers: seq<int>) returns (r: Option<int>)
    ensures r.None? <==> forall i, k, j :: !TripleAt(numbers, i, k, j)
    ensures r.Some? ==> exists i, k, j :: TripleAt(numbers, i, k, j)
                                          && r.value == numbers[i] * numbers[k] * numbers[j]
                                          && (forall i', k', j' :: TripleAt(numbers, i', k', j') ==> i <= i')
                                          && (forall k', j' :: TripleAt(numbers, i, k', j') ==> j <= j')
  {
    for i := 0 to |numbers|
      invariant forall i', k, j :: i' < i ==> !TripleAt(numbers, i', k, j)
    {
      var first := numbers[i];
      var remainingTarget := TargetSum - first;
      var seen: set<int> := {};
      for j := i + 1 to |numbers|
        invariant seen == set k | i < k < j :: numbers[k]
        invariant forall k, j' :: j' < j ==> !TripleAt(numbers, i, k, j')
      {
        var second := numbers[j];
        var needed := remainingTarget - second;
        if needed in seen {
          var k :| i < k < j && numbers[k] == needed;
          assert TripleAt(numbers, i, k, j);
          assert first * second * needed == numbers[i] * numbers[k] * numbers[j];
          return Some(first * second * needed);
        }
        seen := seen + {second};
      }
    }
    return None;
  }
}
