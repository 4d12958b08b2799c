/** Handy Haversacks, the rule parser: `<outer> bags contain <n> <color> bag(s), ... .`
    or `<outer> bags contain no other bags.` */
module BagRules {
  import opened Wrappers
  import opened Text

  datatype Content = Content(count: nat, innerColor: string)

  datatype Rule = Rule(outerColor: string, contents: seq<Content>)

  const Marker := " bags contain "

  const NoOtherBags := "no other bags"

  /** The text w occurs in s at position i. */
  predicate OccursAt(s: string, i: int, w: string) {
    0 <= i && i + |w| <= |s| && s[i..i + |w|] == w
  }

  // ---- `^(.+?) bags contain (.+)\.$` ----

  /** The lazy outer colour may end at i: the marker follows, the rest is one or more
      characters and a final `.`, and neither group holds a line terminator. */
  predicate RuleSplitAt(line: string, i: int) {
    1 <= i && i + |Marker| + 2 <= |line| && NoLineTerminator(line[..i])
    && OccursAt(line, i, Marker) && line[|line| - 1] == '.'
    && NoLineTerminator(line[i + |Marker|..|line| - 1])
  }

  /** The first split position at or after i. */
  function FirstSplit(line: string, i: nat): (r: Option<nat>)
    ensures r.Some? ==> i <= r.value && RuleSplitAt(line, r.value)
                        && forall k :: i <= k < r.value ==> !RuleSplitAt(line, k)
    ensures r.None? ==> forall k :: i <= k ==> !RuleSplitAt(line, k)
    decreases |line| - i
  {
    if i + |Marker| + 2 > |line| then None
    else if RuleSplitAt(line, i) then Some(i)
    else FirstSplit(line, i + 1)
  }

  /** The two groups of the rule pattern: the outer colour and the contents text. */
  function MatchRule(line: string): Option<(string, string)> {
    match FirstSplit(line, 1)
    case None => None
    case Some(i) => Some((line[..i], line[i + |Marker|..|line| - 1]))
  }

  /** The rule pattern matches exactly when some split position exists, and its groups
      come from the first one. */
  lemma MatchRuleMeaning(line: string)
    ensures MatchRule(line).None? <==> forall i :: !RuleSplitAt(line, i)
    ensures MatchRule(line).Some? ==>
              exists i :: RuleSplitAt(line, i) && (forall k :: k < i ==> !RuleSplitAt(line, k))
                          && MatchRule(line).value == (line[..i], line[i + |Marker|..|line| - 1])
  {
  }

  // ---- `^(\d+)\s+(.+?) bag` ----

  /** The lazy colour starting at `start` may end at e: it is non-empty, holds no line
      terminator, and ` bag` follows. */
  predicate ColorEndAt(part: string, start: int, e: int) {
    0 <= start < e && OccursAt(part, e, " bag") && NoTerminatorBetween(part, start, e)
  }

  /** No line terminator at positions lo up to (not including) hi. */
  predicate NoTerminatorBetween(s: string, lo: int, hi: int) {
    forall i :: lo <= i < hi && 0 <= i < |s| ==> !IsLineTerminator(s[i])
  }

  function FirstColorEnd(part: string, start: nat, e: nat): (r: Option<nat>)
    requires start < e
    ensures r.Some? ==> e <= r.value && ColorEndAt(part, start, r.value)
                        && forall k :: e <= k < r.value ==> !ColorEndAt(part, start, k)
    ensures r.None? ==> forall k :: e <= k ==> !ColorEndAt(part, start, k)
    decreases |part| - e
  {
    if e + 4 > |part| then None
    else if ColorEndAt(part, start, e) then Some(e)
    else FirstColorEnd(part, start, e + 1)
  }

  /** A match of the content pattern: n digits (all of the leading ones, since a
      whitespace must follow), w whitespace characters, and a colour ending at e. */
  predicate ContentShape(part: string, w: int, e: int) {
    var n := LeadingDigits(part);
    n >= 1 && w <= LeadingWhitespace(part[n..]) && Reading(part, n, w, e)
  }

  /** After n digits, w whitespace characters and a colour ending at e. */
  predicate Reading(part: string, n: nat, w: int, e: int) {
    1 <= w && ColorEndAt(part, n + w, e)
  }

  /** The backtracking order of the matcher after n digits: the greedy `\s+` gives
      characters back one at a time, and for each length the lazy colour grows one
      character at a time. */
  function TryWhitespace(part: string, n: nat, w: nat): (r: Option<(nat, nat)>)
    ensures r.Some? ==> 1 <= r.value.0 <= w && n + r.value.0 < r.value.1 <= |part|
    decreases w
  {
    if w == 0 then None
    else
      match FirstColorEnd(part, n + w, n + w + 1)
      case Some(e) => Some((w, e))
      case None => TryWhitespace(part, n, w - 1)
  }

  /** Trying the whitespace lengths w, w - 1, ..., 1 finds the first reading in that order. */
  lemma TryWhitespaceMeaning(part: string, n: nat, w: nat)
    ensures var r := TryWhitespace(part, n, w);
            && (r.None? <==> forall w', e :: w' <= w ==> !Reading(part, n, w', e))
            && (r.Some? ==> Reading(part, n, r.value.0, r.value.1)
                            && (forall w', e :: r.value.0 < w' <= w ==> !Reading(part, n, w', e))
                            && forall e :: e < r.value.1 ==> !Reading(part, n, r.value.0, e))
  {
    TryWhitespaceFails(part, n, w);
    TryWhitespaceFinds(part, n, w);
    TryWhitespaceLongest(part, n, w);
  }

  /** The search fails exactly when no whitespace length up to w has a reading. */
  lemma TryWhitespaceFails(part: string, n: nat, w: nat)
    ensures TryWhitespace(part, n, w).None? <==> forall w', e :: w' <= w ==> !Reading(part, n, w', e)
  {
    TryWhitespaceFinds(part, n, w);
    NoneMeansNoReading(part, n, w);
  }

  lemma {:induction false} NoneMeansNoReading(part: string, n: nat, w: nat)
    ensures TryWhitespace(part, n, w).None? ==> forall w', e :: w' <= w ==> !Reading(part, n, w', e)
  {
    if w > 0 && TryWhitespace(part, n, w).None? {
      ColorSearch(part, n, w);
      NoneMeansNoReading(part, n, w - 1);
    }
  }

  /** What the search finds is a reading, with the shortest colour for its whitespace. */
  lemma {:induction false} TryWhitespaceFinds(part: string, n: nat, w: nat)
    ensures var r := TryWhitespace(part, n, w);
            r.Some? ==> Reading(part, n, r.value.0, r.value.1)
                        && forall e :: e < r.value.1 ==> !Reading(part, n, r.value.0, e)
  {
    if w > 0 {
      var f := FirstColorEnd(part, n + w, n + w + 1);
      ColorSearch(part, n, w);
      if f.None? {
        TryWhitespaceFinds(part, n, w - 1);
      }
    }
  }

  /** No longer whitespace run up to w has a reading. */
  lemma {:induction false} TryWhitespaceLongest(part: string, n: nat, w: nat)
    ensures var r := TryWhitespace(part, n, w);
            r.Some? ==> forall w', e :: r.value.0 < w' <= w ==> !Reading(part, n, w', e)
  {
    if w > 0 && FirstColorEnd(part, n + w, n + w + 1).None? {
      ColorSearch(part, n, w);
      TryWhitespaceLongest(part, n, w - 1);
    }
  }

  /** For one whitespace length, the colour search finds the shortest colour, if any. */
  lemma ColorSearch(part: string, n: nat, w: nat)
    requires 1 <= w
    ensures var f := FirstColorEnd(part, n + w, n + w + 1);
            && (f.None? ==> forall e :: !Reading(part, n, w, e))
            && (f.Some? ==> Reading(part, n, w, f.value) && forall e :: e < f.value ==> !Reading(part, n, w, e))
  {
  }

  /** The count and the colour of one content phrase, if it matches. */
  function MatchContent(part: string): Option<Content> {
    var n := LeadingDigits(part);
    if n == 0 then None
    else
      match TryWhitespace(part, n, LeadingWhitespace(part[n..]))
      case None => None
      case Some((w, e)) => Some(Content(DecimalValue(part[..n]), part[n + w..e]))
  }

  /** The content pattern matches exactly when some reading of the phrase exists; the
      count and colour come from the longest whitespace run and then the shortest colour. */
  lemma MatchContentMeaning(part: string)
    ensures MatchContent(part).None? <==> forall w, e :: !ContentShape(part, w, e)
    ensures MatchContent(part).Some? ==>
              exists w, e :: ContentShape(part, w, e)
                             && (forall w', e' :: w < w' ==> !ContentShape(part, w', e'))
                             && (forall e' :: e' < e ==> !ContentShape(part, w, e'))
                             && MatchContent(part).value == Content(DecimalValue(part[..LeadingDigits(part)]),
                                                                    part[LeadingDigits(part) + w..e])
  {
    var n := LeadingDigits(part);
    if n >= 1 {
      var ws := LeadingWhitespace(part[n..]);
      ShapeIsReading(part, n, ws);
      TryWhitespaceMeaning(part, n, ws);
      var r := TryWhitespace(part, n, ws);
      if r.Some? {
        var (w, e) := r.value;
        assert ContentShape(part, w, e);
      }
    }
  }

  /** With all n leading digits and ws leading whitespace characters, a content shape is a
      reading with at most ws whitespace characters. */
  lemma ShapeIsReading(part: string, n: nat, ws: nat)
    requires n == LeadingDigits(part) >= 1 && ws == LeadingWhitespace(part[n..])
    ensures forall w, e :: ContentShape(part, w, e) <==> w <= ws && Reading(part, n, w, e)
  {
  }

  function ParseContent(part: string): (r: Result<Content>)
    ensures r.Success? <==> MatchContent(part).Some?
    ensures r.Success? ==> r.value == MatchContent(part).value
  {
    match MatchContent(part)
    case None => Failure("Bad contents token: " + part)
    case Some(c) => Success(c)
  }

  /** The contents group: `no other bags`, or content phrases separated by `, `. */
  function ParseContents(contentsText: string): Result<seq<Content>> {
    if contentsText == NoOtherBags then Success([])
    else MapAll(SplitOnString(contentsText, ", "), ParseContent)
  }

  /** `no other bags` is the empty list; otherwise every phrase between the `, ` separators
      must match the content pattern, and each gives one content, in order. */
  lemma ParseContentsMeaning(contentsText: string)
    ensures contentsText == NoOtherBags ==> ParseContents(contentsText) == Success([])
    ensures contentsText != NoOtherBags ==>
              var parts := SplitOnString(contentsText, ", ");
              var r := ParseContents(contentsText);
              && (r.Success? <==> forall k :: 0 <= k < |parts| ==> MatchContent(parts[k]).Some?)
              && (r.Success? ==> |r.value| == |parts| >= 1
                                 && forall k :: 0 <= k < |parts| ==> r.value[k] == MatchContent(parts[k]).value)
  {
    if contentsText != NoOtherBags {
      var parts := SplitOnString(contentsText, ", ");
      var r := MapAll(parts, ParseContent);
      assert ParseContents(contentsText) == r;
      forall k | 0 <= k < |parts|
        ensures ParseContent(parts[k]).Success? <==> MatchContent(parts[k]).Some?
      {
      }
      if r.Success? {
        forall k | 0 <= k < |parts| ensures r.value[k] == MatchContent(parts[k]).value {
          assert ParseContent(parts[k]).Success?;
        }
      }
    }
  }

  /** `parseRule`: a line the rule pattern rejects, or a content phrase the content
      pattern rejects, throws. */
  function ParseRule(line: string): (r: Result<Rule>)
    ensures MatchRule(line).None? ==> r == Failure("Bad rule line: " + line)
    ensures MatchRule(line).Some? ==>
              var (outerColor, contentsText) := MatchRule(line).value;
              && (r.Success? <==> ParseContents(contentsText).Success?)
              && (r.Success? ==> r.value == Rule(outerColor, ParseContents(contentsText).value))
              && (r.Success? ==> (r.value.contents == [] <==> contentsText == NoOtherBags))
  {
    match MatchRule(line)
    case None => Failure("Bad rule line: " + line)
    case Some((outerColor, contentsText)) =>
      ParseContentsMeaning(contentsText);
      var contents :- ParseContents(contentsText);
      Success(Rule(outerColor, contents))
  }

  // ---- formatting, and the parser reading it back ----

  function FormatContent(c: Content): string {
    Decimal(c.count) + (" " + (c.innerColor + (if c.count == 1 then " bag" else " bags")))
  }

  function FormatContents(contents: seq<Content>): (pieces: seq<string>)
    ensures |pieces| == |contents| && forall k :: 0 <= k < |contents| ==> pieces[k] == FormatContent(contents[k])
  {
    seq(|contents|, k requires 0 <= k < |contents| => FormatContent(contents[k]))
  }

  function FormatContentsText(contents: seq<Content>): string {
    if contents == [] then NoOtherBags else JoinWithString(FormatContents(contents), ", ")
  }

  function FormatRule(rule: Rule): string {
    rule.outerColor + (Marker + (FormatContentsText(rule.contents) + "."))
  }

  /** A colour the lazy groups read back whole: non-empty, without line terminators or
      commas, not starting with whitespace, and not containing ` bag` (nor, for an outer
      colour, ` bags contain `) where the pattern would stop early. */
  predicate WellFormedColor(color: string) {
    && color != [] && !IsJsWhitespace(color[0]) && NoLineTerminator(color) && ',' !in color
    && (forall e :: 1 <= e < |color| ==> !OccursAt(color + " bag", e, " bag"))
    && (forall i :: 1 <= i < |color| ==> !OccursAt(color + Marker, i, Marker))
  }

  predicate WellFormedRule(rule: Rule) {
    WellFormedColor(rule.outerColor)
    && forall k :: 0 <= k < |rule.contents| ==> WellFormedColor(rule.contents[k].innerColor)
  }

  /** Every well-formed rule is read back from its text. */
  lemma ParseFormat(rule: Rule)
    requires WellFormedRule(rule)
    ensures ParseRule(FormatRule(rule)) == Success(rule)
  {
    var text := FormatContentsText(rule.contents);
    ContentsTextShape(rule.contents);
    MatchRuleFormat(rule.outerColor, text);
    assert ParseRule(FormatRule(rule)) == (var contents :- ParseContents(text); Success(Rule(rule.outerColor, contents)));
    ParseContentsFormat(rule.contents);
  }

  /** The contents text reads back as the contents. */
  lemma ParseContentsFormat(contents: seq<Content>)
    requires forall k :: 0 <= k < |contents| ==> WellFormedColor(contents[k].innerColor)
    ensures ParseContents(FormatContentsText(contents)) == Success(contents)
  {
    if contents != [] {
      var pieces := FormatContents(contents);
      var text := JoinWithString(pieces, ", ");
      forall k | 0 <= k < |pieces| ensures ',' !in pieces[k] && pieces[k] != [] {
        FormatContentShape(contents[k]);
      }
      JoinFirst(pieces, ", ");
      DecimalRoundTrip(contents[0].count);
      assert text[0] == Decimal(contents[0].count)[0];
      assert text != NoOtherBags by { assert NoOtherBags[0] == 'n'; }
      SplitJoin(pieces, ", ");
      forall k | 0 <= k < |pieces| ensures ParseContent(pieces[k]) == Success(contents[k]) {
        MatchContentFormat(contents[k]);
      }
      var m := MapAll(pieces, ParseContent);
      assert m.Success?;
      assert m.value == contents;
    }
  }

  /** The contents text has no line terminator and is non-empty. */
  lemma ContentsTextShape(contents: seq<Content>)
    requires forall k :: 0 <= k < |contents| ==> WellFormedColor(contents[k].innerColor)
    ensures NoLineTerminator(FormatContentsText(contents)) && FormatContentsText(contents) != []
  {
    if contents != [] {
      var pieces := FormatContents(contents);
      forall k | 0 <= k < |pieces| ensures NoLineTerminator(pieces[k]) && pieces[k] != [] {
        FormatContentShape(contents[k]);
      }
      JoinNoLineTerminator(pieces, ", ");
      JoinFirst(pieces, ", ");
    }
  }

  lemma FormatContentShape(c: Content)
    requires WellFormedColor(c.innerColor)
    ensures NoLineTerminator(FormatContent(c)) && ',' !in FormatContent(c) && FormatContent(c) != []
  {
    DecimalRoundTrip(c.count);
    var d := Decimal(c.count);
    var tail := if c.count == 1 then " bag" else " bags";
    var t := " " + (c.innerColor + tail);
    assert FormatContent(c) == d + t;
    forall i | 0 <= i < |d + t| ensures !IsLineTerminator((d + t)[i]) && (d + t)[i] != ',' {
      if i >= |d| + 1 + |c.innerColor| {
        assert (d + t)[i] == tail[i - |d| - 1 - |c.innerColor|];
      } else if i > |d| {
        assert (d + t)[i] == c.innerColor[i - |d| - 1];
      }
    }
  }

  /** A slice inside the middle part of a concatenation. */
  lemma SliceMiddle(pre: string, mid: string, post: string, lo: nat, hi: nat)
    requires lo <= hi <= |mid|
    ensures (pre + mid + post)[|pre| + lo..|pre| + hi] == mid[lo..hi]
  {
    assert (pre + mid + post)[|pre|..|pre| + |mid|] == mid;
  }

  /** The content pattern reads back the count and the colour of a formatted content. */
  lemma MatchContentFormat(c: Content)
    requires WellFormedColor(c.innerColor)
    ensures MatchContent(FormatContent(c)) == Some(c)
  {
    var part := FormatContent(c);
    var n := |Decimal(c.count)|;
    var e0 := n + 1 + |c.innerColor|;
    FormattedContentPrefix(c, part, n);
    FormattedContentSearch(c, part, n);
    MatchContentAfterOneSpace(part, n, e0);
    DecimalRoundTrip(c.count);
  }

  /** In a formatted content the search settles on one space and the whole colour. */
  lemma FormattedContentSearch(c: Content, part: string, n: nat)
    requires WellFormedColor(c.innerColor) && part == FormatContent(c) && n == |Decimal(c.count)|
    ensures TryWhitespace(part, n, 1) == Some((1, n + 1 + |c.innerColor|))
    ensures part[n + 1..n + 1 + |c.innerColor|] == c.innerColor
  {
    var e0 := n + 1 + |c.innerColor|;
    FormattedContentColor(c, part, n + 1);
    FirstColorEndIs(part, n + 1, n + 2, e0);
  }

  /** A phrase whose digits are followed by exactly one whitespace character, where the
      search finds the colour ending at e0. */
  lemma MatchContentAfterOneSpace(part: string, n: nat, e0: nat)
    requires LeadingDigits(part) == n >= 1 && LeadingWhitespace(part[n..]) == 1
    requires TryWhitespace(part, n, 1) == Some((1, e0))
    ensures MatchContent(part) == Some(Content(DecimalValue(part[..n]), part[n + 1..e0]))
  {
  }

  /** The shortest colour, once it is known. */
  lemma FirstColorEndIs(part: string, start: nat, e: nat, e0: nat)
    requires start < e <= e0 && ColorEndAt(part, start, e0) && forall k :: e <= k < e0 ==> !ColorEndAt(part, start, k)
    ensures FirstColorEnd(part, start, e) == Some(e0)
  {
  }

  /** A formatted content, cut into the count and space, the colour and ` bag`, and the plural ending. */
  lemma FormattedContentPieces(c: Content)
    ensures FormatContent(c) == (Decimal(c.count) + " ") + (c.innerColor + " bag") + (if c.count == 1 then "" else "s")
  {
  }

  /** The digits of a formatted content are those of its count, and one space follows them. */
  lemma FormattedContentPrefix(c: Content, part: string, n: nat)
    requires WellFormedColor(c.innerColor) && part == FormatContent(c) && n == |Decimal(c.count)|
    ensures LeadingDigits(part) == n && part[..n] == Decimal(c.count) && LeadingWhitespace(part[n..]) == 1
  {
    var d := Decimal(c.count);
    var after := c.innerColor + (if c.count == 1 then " bag" else " bags");
    assert part == d + (" " + after);
    DecimalRoundTrip(c.count);
    LeadingDigitsAppend(d, " " + after);
    assert part[..n] == d && part[n..] == [' '] + after;
    LeadingWhitespaceAppend([' '], after);
    assert after[0] == c.innerColor[0];
  }

  /** In a formatted content the colour after the space is followed by ` bag`, and no
      shorter colour is. */
  lemma FormattedContentColor(c: Content, part: string, start: nat)
    requires WellFormedColor(c.innerColor)
    requires part == FormatContent(c) && start == |Decimal(c.count)| + 1
    ensures ColorEndAt(part, start, start + |c.innerColor|) && part[start..start + |c.innerColor|] == c.innerColor
    ensures forall k :: start + 1 <= k < start + |c.innerColor| ==> !ColorEndAt(part, start, k)
  {
    var color := c.innerColor;
    var pre := Decimal(c.count) + " ";
    var mid := color + " bag";
    var plural := if c.count == 1 then "" else "s";
    FormattedContentPieces(c);
    SliceMiddle(pre, mid, plural, 0, |color|);
    SliceMiddle(pre, mid, plural, |color|, |color| + 4);
    assert mid[..|color|] == color && mid[|color|..|color| + 4] == " bag";
    forall k | start + 1 <= k < start + |color| ensures !ColorEndAt(part, start, k) {
      NoEarlyBag(pre, mid, plural, color, k - start);
    }
  }

  lemma NoEarlyBag(pre: string, mid: string, plural: string, color: string, j: nat)
    requires WellFormedColor(color) && mid == color + " bag" && 1 <= j < |color|
    ensures !OccursAt(pre + mid + plural, |pre| + j, " bag")
  {
    SliceMiddle(pre, mid, plural, j, j + 4);
    assert !OccursAt(mid, j, " bag");
  }

  /** The first split position, once it is known. */
  lemma FirstSplitIs(line: string, i: nat, i0: nat)
    requires i <= i0 && RuleSplitAt(line, i0) && forall k :: i <= k < i0 ==> !RuleSplitAt(line, k)
    ensures FirstSplit(line, i) == Some(i0)
  {
  }

  /** The rule pattern splits a formatted line at the end of its outer colour. */
  lemma MatchRuleFormat(outer: string, contentsText: string)
    requires WellFormedColor(outer) && contentsText != [] && NoLineTerminator(contentsText)
    ensures MatchRule(outer + (Marker + (contentsText + "."))) == Some((outer, contentsText))
  {
    var line := outer + (Marker + (contentsText + "."));
    FormattedRuleSlices(outer, contentsText);
    forall k | 1 <= k < |outer| ensures !RuleSplitAt(line, k) {
      FormattedRuleNoEarlierMarker(outer, contentsText, k);
    }
    FirstSplitIs(line, 1, |outer|);
  }

  lemma FormattedRuleSlices(outer: string, contentsText: string)
    requires WellFormedColor(outer) && contentsText != [] && NoLineTerminator(contentsText)
    ensures var line := outer + (Marker + (contentsText + "."));
            && RuleSplitAt(line, |outer|) && line[..|outer|] == outer
            && line[|outer| + |Marker|..|line| - 1] == contentsText
  {
    var line := outer + (Marker + (contentsText + "."));
    assert line == outer + Marker + contentsText + ".";
    SliceMiddle([], outer, Marker + (contentsText + "."), 0, |outer|);
    SliceMiddle(outer, Marker, contentsText + ".", 0, |Marker|);
    SliceMiddle(outer + Marker, contentsText, ".", 0, |contentsText|);
  }

  lemma FormattedRuleNoEarlierMarker(outer: string, contentsText: string, k: nat)
    requires WellFormedColor(outer) && 1 <= k < |outer|
    ensures !OccursAt(outer + (Marker + (contentsText + ".")), k, Marker)
  {
    var tail := contentsText + ".";
    assert outer + (Marker + tail) == (outer + Marker) + tail;
    SliceMiddle([], outer + Marker, tail, k, k + |Marker|);
    assert !OccursAt(outer + Marker, k, Marker);
  }
}
