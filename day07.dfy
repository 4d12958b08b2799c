/** Handy Haversacks, the bag graphs: the rules give a forward graph (outer colour to its
    contents) and a reverse graph (inner colour to the outer colours that hold it directly).
    Part 1 counts the colours that can eventually hold a shiny gold bag, part 2 the bags
    inside one. */
module BagGraph {
  import opened Wrappers
  import opened BagRules

  const Target := "shiny gold"

  datatype Graphs = Graphs(contains: map<string, seq<Content>>, containedBy: map<string, set<string>>)

  /** Every line parsed; the first line that does not parse aborts. */
  function Rules(lines: seq<string>): Result<seq<Rule>> {
    MapAll(lines, ParseRule)
  }

  // ---- the forward graph ----

  /** `containsGraph.set(outerColor, contents)` for each rule in turn. */
  function ContainsOf(rules: seq<Rule>): map<string, seq<Content>> {
    if rules == [] then map[]
    else ContainsOf(rules[..|rules| - 1])[rules[|rules| - 1].outerColor := rules[|rules| - 1].contents]
  }

  /** The outer colours of the forward graph are those of the rules, and a colour with
      several rules keeps the contents of its last one. */
  lemma {:induction false} LastRuleWins(rules: seq<Rule>, outer: string)
    ensures outer in ContainsOf(rules) <==> exists k :: 0 <= k < |rules| && rules[k].outerColor == outer
    ensures outer in ContainsOf(rules) ==>
              exists k :: 0 <= k < |rules| && rules[k].outerColor == outer && ContainsOf(rules)[outer] == rules[k].contents
                          && forall j :: k < j < |rules| ==> rules[j].outerColor != outer
  {
    ContainsKeys(rules, outer);
    if outer in ContainsOf(rules) {
      ContainsLast(rules, outer);
    }
  }

  lemma {:induction false} ContainsKeys(rules: seq<Rule>, outer: string)
    ensures outer in ContainsOf(rules) <==> exists k :: 0 <= k < |rules| && rules[k].outerColor == outer
  {
    if rules != [] {
      var n := |rules| - 1;
      var init := rules[..n];
      ContainsKeys(init, outer);
      if outer in ContainsOf(rules) && rules[n].outerColor != outer {
        var k :| 0 <= k < n && init[k].outerColor == outer;
        assert rules[k] == init[k];
      }
      if exists k :: 0 <= k < |rules| && rules[k].outerColor == outer {
        var k :| 0 <= k < |rules| && rules[k].outerColor == outer;
        if k < n {
          assert init[k] == rules[k];
        }
      }
    }
  }

  lemma {:induction false} ContainsLast(rules: seq<Rule>, outer: string)
    requires outer in ContainsOf(rules)
    ensures exists k :: 0 <= k < |rules| && rules[k].outerColor == outer && ContainsOf(rules)[outer] == rules[k].contents
                        && forall j :: k < j < |rules| ==> rules[j].outerColor != outer
  {
    var n := |rules| - 1;
    var init := rules[..n];
    if rules[n].outerColor == outer {
      assert ContainsOf(rules)[outer] == rules[n].contents;
    } else {
      ContainsLast(init, outer);
      var k :| 0 <= k < n && init[k].outerColor == outer && ContainsOf(init)[outer] == init[k].contents
               && forall j :: k < j < n ==> init[j].outerColor != outer;
      assert rules[k] == init[k];
      assert forall j :: k < j < n ==> rules[j] == init[j];
    }
  }

  // ---- the reverse graph ----

  /** The inner colours listed by some rule. */
  function InnerColors(rules: seq<Rule>): set<string> {
    set k, j | 0 <= k < |rules| && 0 <= j < |rules[k].contents| :: rules[k].contents[j].innerColor
  }

  /** The outer colours of the rules that list `inner`. */
  function ParentsOf(rules: seq<Rule>, inner: string): set<string> {
    set k, j | 0 <= k < |rules| && 0 <= j < |rules[k].contents| && rules[k].contents[j].innerColor == inner
             :: rules[k].outerColor
  }

  /** The reverse graph the rules describe: one edge per listed content, and no other. */
  function ContainedByOf(rules: seq<Rule>): map<string, set<string>> {
    map c | c in InnerColors(rules) :: ParentsOf(rules, c)
  }

  /** Registering the edge `inner` to `outer` in the reverse graph. */
  function AddEdge(g: map<string, set<string>>, inner: string, outer: string): map<string, set<string>> {
    g[inner := (if inner in g then g[inner] else {}) + {outer}]
  }

  /** Appending one content to the last rule adds exactly its edge. */
  lemma AddEdgeStep(rules: seq<Rule>, outer: string, contents: seq<Content>, x: Content)
    ensures ContainedByOf(rules + [Rule(outer, contents + [x])])
            == AddEdge(ContainedByOf(rules + [Rule(outer, contents)]), x.innerColor, outer)
  {
    var before := ContainedByOf(rules + [Rule(outer, contents)]);
    var after := ContainedByOf(rules + [Rule(outer, contents + [x])]);
    var added := AddEdge(before, x.innerColor, outer);
    forall c ensures c in after <==> c in added {
      InnerStep(rules, outer, contents, x, c);
    }
    forall c | c in after ensures after[c] == added[c] {
      InnerStep(rules, outer, contents, x, c);
      forall p ensures p in after[c] <==> p in added[c] {
        EdgeStep(rules, outer, contents, x, c, p);
      }
    }
  }

  lemma InnerStep(rules: seq<Rule>, outer: string, contents: seq<Content>, x: Content, c: string)
    ensures c in InnerColors(rules + [Rule(outer, contents + [x])])
            <==> c in InnerColors(rules + [Rule(outer, contents)]) || c == x.innerColor
  {
    var before := rules + [Rule(outer, contents)];
    var after := rules + [Rule(outer, contents + [x])];
    var n := |rules|;
    if c in InnerColors(after) {
      var k, j :| 0 <= k < |after| && 0 <= j < |after[k].contents| && after[k].contents[j].innerColor == c;
      if k < n || j < |contents| {
        assert before[k].contents[j] == after[k].contents[j];
      }
    }
    if c in InnerColors(before) {
      var k, j :| 0 <= k < |before| && 0 <= j < |before[k].contents| && before[k].contents[j].innerColor == c;
      assert after[k].contents[j] == before[k].contents[j];
    }
    if c == x.innerColor {
      assert after[n].contents[|contents|] == x;
    }
  }

  lemma EdgeStep(rules: seq<Rule>, outer: string, contents: seq<Content>, x: Content, c: string, p: string)
    ensures p in ParentsOf(rules + [Rule(outer, contents + [x])], c)
            <==> p in ParentsOf(rules + [Rule(outer, contents)], c) || (c == x.innerColor && p == outer)
  {
    var before := rules + [Rule(outer, contents)];
    var after := rules + [Rule(outer, contents + [x])];
    var n := |rules|;
    if p in ParentsOf(after, c) {
      var k, j :| 0 <= k < |after| && 0 <= j < |after[k].contents| && after[k].contents[j].innerColor == c
                  && after[k].outerColor == p;
      if k < n || j < |contents| {
        assert before[k].contents[j] == after[k].contents[j] && before[k].outerColor == p;
      }
    }
    if p in ParentsOf(before, c) {
      var k, j :| 0 <= k < |before| && 0 <= j < |before[k].contents| && before[k].contents[j].innerColor == c
                  && before[k].outerColor == p;
      assert after[k].contents[j] == before[k].contents[j] && after[k].outerColor == p;
    }
    if c == x.innerColor && p == outer {
      assert after[n].contents[|contents|] == x;
    }
  }

  /** A rule's own entry in the forward graph does not change the reverse graph until its contents are added. */
  lemma NoContentsStep(rules: seq<Rule>, outer: string)
    ensures ContainedByOf(rules + [Rule(outer, [])]) == ContainedByOf(rules)
  {
    var after := rules + [Rule(outer, [])];
    assert forall k :: 0 <= k < |rules| ==> after[k] == rules[k];
    assert InnerColors(after) == InnerColors(rules) by {
      forall c | c in InnerColors(rules) ensures c in InnerColors(after) {
        var k, j :| 0 <= k < |rules| && 0 <= j < |rules[k].contents| && rules[k].contents[j].innerColor == c;
        assert after[k] == rules[k];
      }
    }
    forall c ensures ParentsOf(after, c) == ParentsOf(rules, c) {
      forall p | p in ParentsOf(rules, c) ensures p in ParentsOf(after, c) {
        var k, j :| 0 <= k < |rules| && 0 <= j < |rules[k].contents| && rules[k].contents[j].innerColor == c
                    && rules[k].outerColor == p;
        assert after[k] == rules[k];
      }
    }
  }

  /** `buildGraphs`: parse every line, then record each rule's contents under its outer colour
      and each listed inner colour's edge back to it. A line that does not parse throws. */
  method BuildGraphs(lines: seq<string>) returns (r: Result<Graphs>)
    ensures r.Success? <==> Rules(lines).Success?
    ensures r.Failure? ==> r.error == Rules(lines).error
    ensures r.Success? ==> r.value.contains == ContainsOf(Rules(lines).value)
                           && r.value.containedBy == ContainedByOf(Rules(lines).value)
  {
    var containsGraph: map<string, seq<Content>> := map[];
    var containedByGraph: map<string, set<string>> := map[];
    ghost var rules: seq<Rule> := [];
    for i := 0 to |lines|
      invariant |rules| == i && forall k :: 0 <= k < i ==> ParseRule(lines[k]) == Success(rules[k])
      invariant containsGraph == ContainsOf(rules)
      invariant containedByGraph == ContainedByOf(rules)
    {
      var parsed := ParseRule(lines[i]);
      if parsed.Failure? {
        FirstFailure(lines, i);
        return Failure(parsed.error);
      }
      var rule := parsed.value;
      containsGraph := containsGraph[rule.outerColor := rule.contents];
      containedByGraph := AddContainedBy(containedByGraph, rules, rule);
      assert (rules + [rule])[..i] == rules;
      rules := rules + [rule];
    }
    assert Rules(lines).Success?;
    assert Rules(lines).value == rules;
    return Success(Graphs(containsGraph, containedByGraph));
  }

  /** The inner loop of `buildGraphs`: an edge from each listed inner colour back to the
      rule's outer colour. */
  method AddContainedBy(containedByGraph: map<string, set<string>>, ghost rules: seq<Rule>, rule: Rule)
    returns (containedByGraph': map<string, set<string>>)
    requires containedByGraph == ContainedByOf(rules)
    ensures containedByGraph' == ContainedByOf(rules + [rule])
  {
    containedByGraph' := containedByGraph;
    NoContentsStep(rules, rule.outerColor);
    assert rule.contents[..0] == [];
    for j := 0 to |rule.contents|
      invariant containedByGraph' == ContainedByOf(rules + [Rule(rule.outerColor, rule.contents[..j])])
    {
      var innerColor := rule.contents[j].innerColor;
      if innerColor !in containedByGraph' {
        containedByGraph' := containedByGraph'[innerColor := {}];
      }
      containedByGraph' := containedByGraph'[innerColor := containedByGraph'[innerColor] + {rule.outerColor}];
      AddEdgeStep(rules, rule.outerColor, rule.contents[..j], rule.contents[j]);
      TakeOneMore(rule.contents, j);
    }
    assert rule.contents[..|rule.contents|] == rule.contents;
  }

  lemma TakeOneMore<T>(s: seq<T>, j: nat)
    requires j < |s|
    ensures s[..j + 1] == s[..j] + [s[j]]
  {
  }

  /** The first line that does not parse is the one whose error is thrown. */
  lemma FirstFailure(lines: seq<string>, i: nat)
    requires i < |lines| && ParseRule(lines[i]).Failure? && forall k :: 0 <= k < i ==> ParseRule(lines[k]).Success?
    ensures Rules(lines) == Failure(ParseRule(lines[i]).error)
  {
    var r := Rules(lines);
    var i' :| 0 <= i' < |lines| && ParseRule(lines[i']).Failure? && r.error == ParseRule(lines[i']).error
              && forall j :: 0 <= j < i' ==> ParseRule(lines[j]).Success?;
    assert i' == i;
  }

  // ---- part 1: reverse reachability ----

  /** A walk along reverse edges: each colour holds the previous one directly. */
  ghost predicate IsWalk(g: map<string, set<string>>, walk: seq<string>) {
    |walk| >= 2 && forall i :: 0 <= i < |walk| - 1 ==> walk[i] in g && walk[i + 1] in g[walk[i]]
  }

  /** The colours that appear as parents anywhere in the reverse graph. */
  function AllParents(g: map<string, set<string>>): set<string> {
    set c, p | c in g && p in g[c] :: p
  }

  /** The colours reachable from `target` by one or more reverse edges. */
  ghost function Ancestors(g: map<string, set<string>>, target: string): set<string> {
    set p | p in AllParents(g) && exists walk :: IsWalk(g, walk) && walk[0] == target && walk[|walk| - 1] == p
  }

  /** `countColorsThatCanEventuallyContain`: a stack of colours to expand and the set of colours
      seen; a colour enters the stack only when it is first seen. */
  method CountColorsThatCanEventuallyContain(targetColor: string, containedByGraph: map<string, set<string>>)
    returns (count: nat)
    ensures count == |Ancestors(containedByGraph, targetColor)|
  {
    var visited: set<string> := {};
    var stack: seq<string> := [targetColor];
    ghost var expanded: set<string> := {};
    ghost var universe := AllParents(containedByGraph);
    while |stack| > 0
      invariant Explored(containedByGraph, targetColor, visited, stack, expanded)
      decreases |universe - visited|, |stack|
    {
      ghost var current := stack[|stack| - 1];
      visited, stack := VisitTop(targetColor, containedByGraph, visited, stack, expanded);
      expanded := expanded + {current};
    }
    ClosedSetHoldsAncestors(containedByGraph, targetColor, visited, expanded);
    count := |visited|;
  }

  /** One turn of the search: pop the top colour, and push its parents not seen before. */
  method VisitTop(targetColor: string, containedByGraph: map<string, set<string>>, visited: set<string>,
                  stack: seq<string>, ghost expanded: set<string>)
    returns (visited': set<string>, stack': seq<string>)
    requires Explored(containedByGraph, targetColor, visited, stack, expanded) && |stack| > 0
    ensures Explored(containedByGraph, targetColor, visited', stack', expanded + {stack[|stack| - 1]})
    ensures visited' != visited ==>
              |AllParents(containedByGraph) - visited'| < |AllParents(containedByGraph) - visited|
    ensures visited' == visited ==> |stack'| < |stack|
  {
    var current := stack[|stack| - 1];
    visited', stack' := visited, stack[..|stack| - 1];
    if current in containedByGraph {
      var directParents := containedByGraph[current];
      visited', stack' := PushNewParents(directParents, visited', stack');
    }
    DfsStep(containedByGraph, targetColor, visited, stack, expanded, visited', stack');
    if visited' != visited {
      ghost var universe := AllParents(containedByGraph);
      ProperSubsetCard(universe - visited', universe - visited);
    }
  }

  /** The state of the search: the seen colours are ancestors; the stack holds the target or
      seen colours; an expanded colour's parents are all seen; and the target and every seen
      colour are expanded or still on the stack. */
  ghost predicate Explored(g: map<string, set<string>>, target: string, visited: set<string>, stack: seq<string>,
                           expanded: set<string>) {
    && visited <= Ancestors(g, target) && visited <= AllParents(g)
    && (forall c :: c in stack ==> c == target || c in visited)
    && (forall c :: c in expanded && c in g ==> g[c] <= visited)
    && (target in expanded || target in stack)
    && (forall c :: c in visited ==> c in expanded || c in stack)
  }

  /** One iteration of the search keeps its state. */
  lemma DfsStep(g: map<string, set<string>>, target: string, visited: set<string>, stack: seq<string>,
                expanded: set<string>, visited': set<string>, stack': seq<string>)
    requires Explored(g, target, visited, stack, expanded) && |stack| > 0
    requires var current := stack[|stack| - 1];
             if current in g then
               visited' == visited + g[current] && forall c :: c in stack' <==> c in stack[..|stack| - 1] || c in g[current] - visited
             else
               visited' == visited && stack' == stack[..|stack| - 1]
    ensures Explored(g, target, visited', stack', expanded + {stack[|stack| - 1]})
  {
    var current := stack[|stack| - 1];
    PopMembership(stack);
    if current in g {
      ParentsAreAncestors(g, target, current);
      ExpandStep(g, expanded, current, visited, visited');
      PendingStep(visited, stack, expanded, g[current], visited', stack');
    }
  }

  /** The inner loop over the direct parents, taken in any order: each parent not yet seen is
      marked seen and pushed. */
  method PushNewParents(directParents: set<string>, visited: set<string>, stack: seq<string>)
    returns (visited': set<string>, stack': seq<string>)
    ensures visited' == visited + directParents
    ensures forall c :: c in stack' <==> c in stack || c in directParents - visited
    ensures visited' == visited ==> stack' == stack
  {
    visited', stack' := visited, stack;
    var remaining := directParents;
    while remaining != {}
      invariant remaining <= directParents
      invariant visited' == visited + (directParents - remaining)
      invariant forall c :: c in stack' <==> c in stack || c in (directParents - remaining) - visited
      invariant visited' == visited ==> stack' == stack
      decreases remaining
    {
      var parentColor :| parentColor in remaining;
      remaining := remaining - {parentColor};
      if parentColor !in visited' {
        visited' := visited' + {parentColor};
        stack' := stack' + [parentColor];
      }
    }
  }

  lemma PopMembership(stack: seq<string>)
    requires |stack| > 0
    ensures forall c :: c in stack <==> c in stack[..|stack| - 1] || c == stack[|stack| - 1]
  {
    assert stack == stack[..|stack| - 1] + [stack[|stack| - 1]];
  }

  /** Expanding `current` keeps every expanded colour's parents among the seen colours. */
  lemma ExpandStep(g: map<string, set<string>>, expanded: set<string>, current: string,
                   visited: set<string>, visited': set<string>)
    requires forall c :: c in expanded && c in g ==> g[c] <= visited
    requires current in g && visited' == visited + g[current]
    ensures forall c :: c in expanded + {current} && c in g ==> g[c] <= visited'
  {
  }

  /** After a pop and the pushes, every seen colour is still expanded or on the stack. */
  lemma PendingStep(visited: set<string>, stack: seq<string>, expanded: set<string>, parents: set<string>,
                    visited': set<string>, stack': seq<string>)
    requires |stack| > 0 && forall c :: c in visited ==> c in expanded || c in stack
    requires forall c :: c in stack <==> c in stack[..|stack| - 1] || c == stack[|stack| - 1]
    requires visited' == visited + parents
    requires forall c :: c in stack' <==> c in stack[..|stack| - 1] || c in parents - visited
    ensures forall c :: c in visited' ==> c in expanded + {stack[|stack| - 1]} || c in stack'
  {
  }

  /** The direct parents of the target or of an ancestor are ancestors. */
  lemma ParentsAreAncestors(g: map<string, set<string>>, target: string, current: string)
    requires current == target || current in Ancestors(g, target)
    requires current in g
    ensures g[current] <= Ancestors(g, target) && g[current] <= AllParents(g)
  {
    forall c | c in g[current] ensures c in Ancestors(g, target) {
      ParentIsAncestor(g, target, current, c);
    }
  }

  lemma ProperSubsetCard<T>(a: set<T>, b: set<T>)
    requires a < b
    ensures |a| < |b|
  {
    assert b == a + (b - a) && a * (b - a) == {};
    assert b - a != {};
  }

  /** A parent of the target, or of one of its ancestors, is an ancestor. */
  lemma ParentIsAncestor(g: map<string, set<string>>, target: string, current: string, parent: string)
    requires current == target || current in Ancestors(g, target)
    requires current in g && parent in g[current]
    ensures parent in Ancestors(g, target)
  {
    var walk: seq<string>;
    if current == target {
      walk := [target, parent];
    } else {
      var w :| IsWalk(g, w) && w[0] == target && w[|w| - 1] == current;
      walk := w + [parent];
      assert forall i :: 0 <= i < |w| ==> walk[i] == w[i];
    }
    assert IsWalk(g, walk);
    assert parent in AllParents(g);
  }

  /** A set of ancestors that holds the parents of every expanded colour, with the target
      and every member expanded, holds every ancestor. */
  lemma ClosedSetHoldsAncestors(g: map<string, set<string>>, target: string, visited: set<string>, expanded: set<string>)
    requires visited <= Ancestors(g, target)
    requires forall c :: c in expanded && c in g ==> g[c] <= visited
    requires target in expanded && visited <= expanded
    ensures visited == Ancestors(g, target)
  {
    forall p | p in Ancestors(g, target) ensures p in visited {
      var walk :| IsWalk(g, walk) && walk[0] == target && walk[|walk| - 1] == p;
      WalkStaysExpanded(g, walk, visited, expanded, |walk| - 1);
    }
  }

  lemma {:induction false} WalkStaysExpanded(g: map<string, set<string>>, walk: seq<string>, visited: set<string>,
                                            expanded: set<string>, i: nat)
    requires IsWalk(g, walk) && walk[0] in expanded && 1 <= i < |walk|
    requires forall c :: c in expanded && c in g ==> g[c] <= visited
    requires visited <= expanded
    ensures walk[i] in visited
  {
    if i > 1 {
      WalkStaysExpanded(g, walk, visited, expanded, i - 1);
    }
    assert walk[i - 1] in g && walk[i] in g[walk[i - 1]];
  }

  // ---- part 2: the memoised total ----

  /** A rank on some of the colours with rules that decreases along every contents edge out of
      a ranked colour, so the ranked colours are closed under contents and hold no cycle. The
      recursion has no cycle guard: it is only defined on colours from which no cycle is reachable,
      and the other colours of the graph may be cyclic. */
  ghost predicate Ranked(contains: map<string, seq<Content>>, rank: map<string, nat>) {
    forall c :: c in contains && c in rank ==>
      forall j :: 0 <= j < |contains[c]| && contains[c][j].innerColor in contains ==>
                    contains[c][j].innerColor in rank && rank[contains[c][j].innerColor] < rank[c]
  }

  /** The colour has no rule or is ranked. */
  ghost predicate Covers(contains: map<string, seq<Content>>, rank: map<string, nat>, color: string) {
    color in contains ==> color in rank
  }

  ghost function Depth(contains: map<string, seq<Content>>, rank: map<string, nat>, color: string): nat
    requires Ranked(contains, rank) && Covers(contains, rank, color)
  {
    if color in contains then rank[color] + 1 else 0
  }

  /** The bags inside one `color` bag: each content of its rule gives `count` bags and what
      they hold; a colour without a rule holds nothing. */
  ghost function Total(contains: map<string, seq<Content>>, rank: map<string, nat>, color: string): nat
    requires Ranked(contains, rank) && Covers(contains, rank, color)
    decreases Depth(contains, rank, color), 1
  {
    if color !in contains then 0 else ContentsTotal(contains, rank, color, |contains[color]|)
  }

  /** The part of the total given by the first j contents. */
  ghost function ContentsTotal(contains: map<string, seq<Content>>, rank: map<string, nat>, color: string, j: nat): nat
    requires Ranked(contains, rank) && color in contains && color in rank && j <= |contains[color]|
    decreases Depth(contains, rank, color), 0, j
  {
    if j == 0 then 0
    else
      var item := contains[color][j - 1];
      ContentsTotal(contains, rank, color, j - 1) + item.count * (1 + Total(contains, rank, item.innerColor))
  }

  /** Every memo entry is the total of its colour. */
  ghost predicate MemoSound(contains: map<string, seq<Content>>, rank: map<string, nat>, memo: map<string, nat>) {
    Ranked(contains, rank) && forall c :: c in memo ==> Covers(contains, rank, c) && memo[c] == Total(contains, rank, c)
  }

  /** `countTotalBagsInside`: the memo is read first and written once the contents are summed.
      The memo holds only correct totals, and entries are only ever added. */
  method CountTotalBagsInside(color: string, containsGraph: map<string, seq<Content>>, memo: map<string, nat>,
                              ghost rank: map<string, nat>)
    returns (total: nat, memo': map<string, nat>)
    requires Ranked(containsGraph, rank) && Covers(containsGraph, rank, color) && MemoSound(containsGraph, rank, memo)
    ensures total == Total(containsGraph, rank, color)
    ensures MemoSound(containsGraph, rank, memo') && color in memo'
    ensures forall c :: c in memo ==> c in memo' && memo'[c] == memo[c]
    decreases Depth(containsGraph, rank, color)
  {
    if color in memo {
      return memo[color], memo;
    }
    var contents := if color in containsGraph then containsGraph[color] else [];
    total, memo' := 0, memo;
    for j := 0 to |contents|
      invariant total == if color in containsGraph then ContentsTotal(containsGraph, rank, color, j) else 0
      invariant MemoSound(containsGraph, rank, memo')
      invariant forall c :: c in memo ==> c in memo' && memo'[c] == memo[c]
    {
      var count, innerColor := contents[j].count, contents[j].innerColor;
      var inside;
      inside, memo' := CountTotalBagsInside(innerColor, containsGraph, memo', rank);
      total := total + count * (1 + inside);
    }
    memo' := memo'[color := total];
  }

  /** The total does not depend on which rank witnesses acyclicity. */
  lemma {:induction false} TotalAnyRank(contains: map<string, seq<Content>>, r1: map<string, nat>,
                                        r2: map<string, nat>, color: string)
    requires Ranked(contains, r1) && Ranked(contains, r2) && Covers(contains, r1, color) && Covers(contains, r2, color)
    ensures Total(contains, r1, color) == Total(contains, r2, color)
    decreases Depth(contains, r1, color), 1
  {
    if color in contains {
      ContentsAnyRank(contains, r1, r2, color, |contains[color]|);
    }
  }

  lemma {:induction false} ContentsAnyRank(contains: map<string, seq<Content>>, r1: map<string, nat>,
                                           r2: map<string, nat>, color: string, j: nat)
    requires Ranked(contains, r1) && Ranked(contains, r2) && color in contains && color in r1 && color in r2
    requires j <= |contains[color]|
    ensures ContentsTotal(contains, r1, color, j) == ContentsTotal(contains, r2, color, j)
    decreases Depth(contains, r1, color), 0, j
  {
    if j > 0 {
      ContentsAnyRank(contains, r1, r2, color, j - 1);
      TotalAnyRank(contains, r1, r2, contains[color][j - 1].innerColor);
    }
  }

  /** Each content of a rule contributes its count times one plus the total of its colour. */
  lemma EachContentCounted(contains: map<string, seq<Content>>, rank: map<string, nat>, color: string, j: nat)
    requires Ranked(contains, rank) && color in contains && color in rank && j < |contains[color]|
    ensures var item := contains[color][j];
            Total(contains, rank, color) >= item.count * (1 + Total(contains, rank, item.innerColor))
  {
    ContentsTotalGrows(contains, rank, color, j + 1, |contains[color]|);
  }

  lemma {:induction false} ContentsTotalGrows(contains: map<string, seq<Content>>, rank: map<string, nat>,
                                              color: string, j: nat, k: nat)
    requires Ranked(contains, rank) && color in contains && color in rank && j <= k <= |contains[color]|
    ensures ContentsTotal(contains, rank, color, j) <= ContentsTotal(contains, rank, color, k)
    decreases k - j
  {
    if j < k {
      ContentsTotalGrows(contains, rank, color, j, k - 1);
    }
  }

  /** A colour without a rule, or whose rule says `no other bags`, holds no bags. */
  lemma EmptyHoldsNothing(contains: map<string, seq<Content>>, rank: map<string, nat>, color: string)
    requires Ranked(contains, rank) && Covers(contains, rank, color) && (color !in contains || contains[color] == [])
    ensures Total(contains, rank, color) == 0
  {
  }

  /** A cycle that `shiny gold` cannot reach does not stop part 2: with `a` holding `b` and `b`
      holding `a`, ranking `shiny gold` alone covers it, and it holds no bags. */
  lemma UnreachableCycleIgnored()
    ensures var contains := map["a" := [Content(1, "b")], "b" := [Content(1, "a")], Target := []];
            var rank := map[Target := 0];
            Ranked(contains, rank) && Covers(contains, rank, Target) && Total(contains, rank, Target) == 0
  {
    var contains := map["a" := [Content(1, "b")], "b" := [Content(1, "a")], Target := []];
    var rank := map[Target := 0];
    assert "a" != Target && "b" != Target;
    EmptyHoldsNothing(contains, rank, Target);
  }

  // ---- solve ----

  /** `solve`: both parts for `shiny gold`. Part 2 needs the colours reachable from `shiny gold`
      through contents to be acyclic. */
  method Solve(lines: seq<string>, ghost rank: map<string, nat>) returns (r: Result<(nat, nat)>)
    requires Rules(lines).Success? ==>
               Ranked(ContainsOf(Rules(lines).value), rank) && Covers(ContainsOf(Rules(lines).value), rank, Target)
    ensures r.Success? <==> Rules(lines).Success?
    ensures r.Failure? ==> r.error == Rules(lines).error
    ensures r.Success? ==> r.value.0 == |Ancestors(ContainedByOf(Rules(lines).value), Target)|
                           && r.value.1 == Total(ContainsOf(Rules(lines).value), rank, Target)
  {
    var graphs := BuildGraphs(lines);
    if graphs.Failure? {
      return Failure(graphs.error);
    }
    var part1 := CountColorsThatCanEventuallyContain(Target, graphs.value.containedBy);
    var part2, _ := CountTotalBagsInside(Target, graphs.value.contains, map[], rank);
    return Success((part1, part2));
  }
}
