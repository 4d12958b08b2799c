/** Custom Customs: each group block holds one line of "yes" answers per person;
    part 1 sums the answers given by anyone in a group, part 2 those given by everyone. */
module Day06 {
  import opened Text
  import opened Seqs

  /** `filter((line) => line.length > 0)`: the non-empty lines, in order. */
  function NonEmptyLines(lines: seq<string>): (people: seq<string>)
    ensures |people| <= |lines|
    ensures forall k :: 0 <= k < |people| ==> people[k] != []
    ensures forall x :: x in people <==> x in lines && x != []
  {
    if lines == [] then []
    else
      var rest := NonEmptyLines(lines[1..]);
      assert forall x :: x in lines <==> x == lines[0] || x in lines[1..];
      if lines[0] == [] then rest else [lines[0]] + rest
  }

  /** One answer line per person of the group. */
  function People(groupBlock: string): seq<string> {
    NonEmptyLines(SplitOnChar(groupBlock, '\n'))
  }

  /** The characters answered by at least one person. */
  function AnsweredByAnyone(people: seq<string>): set<char> {
    set k, c | 0 <= k < |people| && c in people[k] :: c
  }

  /** The characters answered by every person; none when there are no people. */
  function AnsweredByEveryone(people: seq<string>): set<char> {
    if people == [] then {} else set c | c in people[0] && forall k :: 0 <= k < |people| ==> c in people[k]
  }

  function CharsOf(s: string): set<char> {
    set c | c in s
  }

  /** `countUnionYes`: every character of every person goes into one set. */
  method CountUnionYes(groupBlock: string) returns (count: nat)
    ensures count == |AnsweredByAnyone(People(groupBlock))|
  {
    var people := NonEmptyLines(SplitOnChar(groupBlock, '\n'));
    var yesSet: set<char> := {};
    for k := 0 to |people|
      invariant yesSet == AnsweredByAnyone(people[..k])
    {
      var personAnswers := people[k];
      for j := 0 to |personAnswers|
        invariant yesSet == AnsweredByAnyone(people[..k]) + CharsOf(personAnswers[..j])
      {
        assert CharsOf(personAnswers[..j + 1]) == CharsOf(personAnswers[..j]) + {personAnswers[j]} by {
          assert personAnswers[..j + 1] == personAnswers[..j] + [personAnswers[j]];
        }
        yesSet := yesSet + {personAnswers[j]};
      }
      assert personAnswers[..|personAnswers|] == personAnswers;
      AnyoneStep(people, k);
    }
    assert people[..|people|] == people;
    count := |yesSet|;
  }

  lemma AnyoneStep(people: seq<string>, k: nat)
    requires k < |people|
    ensures AnsweredByAnyone(people[..k + 1]) == AnsweredByAnyone(people[..k]) + CharsOf(people[k])
  {
    var p := people[..k + 1];
    assert forall i :: 0 <= i < k ==> p[i] == people[..k][i];
    assert p[k] == people[k];
  }

  /** `countIntersectionYes`: start from the first person's answers and keep only those
      every later person also gave. */
  method CountIntersectionYes(groupBlock: string) returns (count: nat)
    ensures count == |AnsweredByEveryone(People(groupBlock))|
  {
    var people := NonEmptyLines(SplitOnChar(groupBlock, '\n'));
    if |people| == 0 {
      return 0;
    }
    var common := CharsOf(people[0]);
    for i := 1 to |people|
      invariant common == AnsweredByEveryone(people[..i])
    {
      var currentSet := CharsOf(people[i]);
      common := set c | c in common && c in currentSet;
      EveryoneStep(people, i);
    }
    assert people[..|people|] == people;
    count := |common|;
  }

  lemma EveryoneStep(people: seq<string>, i: nat)
    requires 1 <= i < |people|
    ensures AnsweredByEveryone(people[..i + 1]) == set c | c in AnsweredByEveryone(people[..i]) && c in CharsOf(people[i])
  {
    var p := people[..i + 1];
    assert forall k :: 0 <= k < i ==> p[k] == people[..i][k];
    assert p[i] == people[i];
  }

  /** What everybody answered, somebody answered. */
  lemma EveryoneWithinAnyone(people: seq<string>)
    ensures AnsweredByEveryone(people) <= AnsweredByAnyone(people)
    ensures |AnsweredByEveryone(people)| <= |AnsweredByAnyone(people)|
  {
    if people != [] {
      forall c | c in AnsweredByEveryone(people) ensures c in AnsweredByAnyone(people) {
        assert c in people[0];
      }
      SubsetCard(AnsweredByEveryone(people), AnsweredByAnyone(people));
    }
  }

  lemma SubsetCard<T>(a: set<T>, b: set<T>)
    requires a <= b
    ensures |a| <= |b|
  {
    assert b == a + (b - a);
  }

  /** For a single person, both counts are that person's distinct answers. */
  lemma OnePerson(person: string)
    requires person != []
    ensures AnsweredByAnyone([person]) == CharsOf(person)
    ensures AnsweredByEveryone([person]) == CharsOf(person)
  {
    var ps := [person];
    forall c | c in CharsOf(person) ensures c in AnsweredByAnyone(ps) {
      assert c in ps[0];
    }
  }

  /** Empty lines change neither count: both depend only on the non-empty lines. */
  lemma BlankLinesIgnored(lines: seq<string>)
    ensures NonEmptyLines(lines + [[]]) == NonEmptyLines(lines)
    ensures NonEmptyLines([[]] + lines) == NonEmptyLines(lines)
    decreases |lines|
  {
    if lines != [] {
      assert (lines + [[]])[1..] == lines[1..] + [[]];
      BlankLinesIgnored(lines[1..]);
    }
    assert ([[]] + lines)[1..] == lines;
  }

  function UnionCount(groupBlock: string): nat {
    |AnsweredByAnyone(People(groupBlock))|
  }

  function IntersectionCount(groupBlock: string): nat {
    |AnsweredByEveryone(People(groupBlock))|
  }

  /** The two `reduce` sums over the group blocks; part 2 never exceeds part 1. */
  method Totals(groupBlocks: seq<string>) returns (part1: nat, part2: nat)
    ensures part1 == SumOf(groupBlocks, UnionCount) && part2 == SumOf(groupBlocks, IntersectionCount)
    ensures part2 <= part1
  {
    part1, part2 := 0, 0;
    for i := 0 to |groupBlocks|
      invariant part1 == SumOf(groupBlocks[..i], UnionCount)
      invariant part2 == SumOf(groupBlocks[..i], IntersectionCount)
    {
      var u := CountUnionYes(groupBlocks[i]);
      var n := CountIntersectionYes(groupBlocks[i]);
      assert groupBlocks[..i + 1][..i] == groupBlocks[..i];
      part1, part2 := part1 + u, part2 + n;
    }
    assert groupBlocks[..|groupBlocks|] == groupBlocks;
    forall b | b in groupBlocks ensures IntersectionCount(b) <= UnionCount(b) {
      EveryoneWithinAnyone(People(b));
    }
    SumOfMonotone(groupBlocks, IntersectionCount, UnionCount);
  }
}
