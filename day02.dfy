/** Password Philosophy: each line is a policy and a password; part 1 bounds the
    number of occurrences of the policy letter, part 2 asks that exactly one of two
    1-indexed positions holds it. */
module Day02 {
  import opened Wrappers
  import opened Text
  import opened Seqs

  datatype Entry = Entry(firstNumber: nat, secondNumber: nat, policyCharacter: char, password: string)

  /** The text `line` is an instance of `<digits>-<digits><\s+><letter>:<\s+><password>`
      for the given pieces (the language of the line pattern, without its
      preference for a longest whitespace run). */
  predicate LineShape(line: string, d1: string, d2: string, w1: string, c: char, w2: string, pwd: string) {
    && d1 != [] && IsDigits(d1) && d2 != [] && IsDigits(d2)
    && w1 != [] && AllWhitespace(w1) && IsAsciiLetter(c)
    && w2 != [] && AllWhitespace(w2) && pwd != [] && NoLineTerminator(pwd)
    && line == d1 + (['-'] + (d2 + (w1 + ([c, ':'] + (w2 + pwd)))))
  }

  /** The `\s+(.+)$` that ends the pattern: the whitespace run is as long as possible
      while leaving a non-empty password. */
  function PasswordPart(rest: string): (r: Option<string>)
    ensures r.Some? ==> r.value != [] && NoLineTerminator(r.value)
  {
    var k := LeadingWhitespace(rest);
    if k == 0 || |rest| < 2 then None
    else
      var w := if k < |rest| then k else |rest| - 1;
      if NoLineTerminator(rest[w..]) then Some(rest[w..]) else None
  }

  lemma PasswordPartSound(rest: string) returns (w2: string)
    requires PasswordPart(rest).Some?
    ensures w2 != [] && AllWhitespace(w2) && rest == w2 + PasswordPart(rest).value
  {
    var k := LeadingWhitespace(rest);
    var w := if k < |rest| then k else |rest| - 1;
    w2 := rest[..w];
    assert rest[..w] == rest[..k][..w];
    assert rest == rest[..w] + rest[w..];
  }

  lemma PasswordPartComplete(w2: string, pwd: string)
    requires w2 != [] && AllWhitespace(w2) && pwd != [] && NoLineTerminator(pwd)
    ensures var r := PasswordPart(w2 + pwd);
            r.Some? && |r.value| <= |pwd| && r.value == pwd[|pwd| - |r.value|..]
            && (!IsJsWhitespace(pwd[0]) ==> r.value == pwd)
  {
    var rest := w2 + pwd;
    LeadingWhitespaceAppend(w2, pwd);
    var k := LeadingWhitespace(rest);
    var w := if k < |rest| then k else |rest| - 1;
    assert |w2| <= w;
    assert rest[w..] == pwd[w - |w2|..];
  }

  /** The `\s+([a-zA-Z]):` before the password. */
  function PolicyPart(s: string): (r: Option<(char, string)>)
    ensures r.Some? ==> IsAsciiLetter(r.value.0) && r.value.1 != [] && NoLineTerminator(r.value.1)
  {
    var w1 := LeadingWhitespace(s);
    if w1 == 0 || w1 + 1 >= |s| || !IsAsciiLetter(s[w1]) || s[w1 + 1] != ':' then None
    else
      match PasswordPart(s[w1 + 2..])
      case None => None
      case Some(pwd) => Some((s[w1], pwd))
  }

  lemma PolicyPartSound(s: string) returns (w1: string, w2: string)
    requires PolicyPart(s).Some?
    ensures var (c, pwd) := PolicyPart(s).value;
            w1 != [] && AllWhitespace(w1) && w2 != [] && AllWhitespace(w2) && s == w1 + ([c, ':'] + (w2 + pwd))
  {
    var n := LeadingWhitespace(s);
    w1 := s[..n];
    w2 := PasswordPartSound(s[n + 2..]);
    assert s == w1 + ([s[n], s[n + 1]] + s[n + 2..]);
  }

  lemma PolicyPartComplete(w1: string, c: char, w2: string, pwd: string)
    requires w1 != [] && AllWhitespace(w1) && IsAsciiLetter(c)
    requires w2 != [] && AllWhitespace(w2) && pwd != [] && NoLineTerminator(pwd)
    ensures var r := PolicyPart(w1 + ([c, ':'] + (w2 + pwd)));
            r.Some? && r.value.0 == c && r.value.1 == PasswordPart(w2 + pwd).value
  {
    var t := [c, ':'] + (w2 + pwd);
    var s := w1 + t;
    var n := |w1|;
    LeadingWhitespaceAppend(w1, t);
    assert LeadingWhitespace(t) == 0 by {
      assert t[0] == c;
    }
    assert LeadingWhitespace(s) == n;
    assert s[n] == c && s[n + 1] == ':' && n + 1 < |s|;
    assert s[n + 2..] == w2 + pwd by {
      AppendSlices(w1, t);
      AppendSlices([c, ':'], w2 + pwd);
    }
    PasswordPartComplete(w2, pwd);
    assert PolicyPart(s) == Some((c, PasswordPart(w2 + pwd).value));
  }

  lemma TakeDrop(s: string, i: nat)
    requires i <= |s|
    ensures s == s[..i] + s[i..]
  {
  }

  lemma SplitAround(s: string, i: nat)
    requires i < |s|
    ensures s == s[..i] + ([s[i]] + s[i + 1..])
  {
  }

  lemma AppendSlices(a: string, b: string)
    ensures (a + b)[..|a|] == a && (a + b)[|a|..] == b
  {
  }

  /** `parseLine`: a hand-written matcher for `^(\d+)-(\d+)\s+([a-zA-Z]):\s+(.+)$`.
      The digit runs and the first whitespace run are unambiguous; the second
      whitespace run is as long as possible while leaving the password non-empty. */
  function ParseLine(line: string): (r: Result<Entry>)
    ensures r.Success? ==> IsAsciiLetter(r.value.policyCharacter)
                           && r.value.password != [] && NoLineTerminator(r.value.password)
  {
    var n1 := LeadingDigits(line);
    if n1 == 0 || n1 == |line| || line[n1] != '-' then Failure("Invalid line format: " + line)
    else
      var s1 := line[n1 + 1..];
      var n2 := LeadingDigits(s1);
      if n2 == 0 then Failure("Invalid line format: " + line)
      else
        match PolicyPart(s1[n2..])
        case None => Failure("Invalid line format: " + line)
        case Some((c, pwd)) => Success(Entry(DecimalValue(line[..n1]), DecimalValue(s1[..n2]), c, pwd))
  }

  /** Every accepted line has the shape, and the entry holds the values of its pieces. */
  lemma ParseLineSound(line: string) returns (d1: string, d2: string, w1: string, w2: string)
    requires ParseLine(line).Success?
    ensures var e := ParseLine(line).value;
            LineShape(line, d1, d2, w1, e.policyCharacter, w2, e.password)
            && e.firstNumber == DecimalValue(d1) && e.secondNumber == DecimalValue(d2)
  {
    var n1 := LeadingDigits(line);
    var s1 := line[n1 + 1..];
    var n2 := LeadingDigits(s1);
    var s2 := s1[n2..];
    d1, d2 := line[..n1], s1[..n2];
    var (c, pwd) := PolicyPart(s2).value;
    assert ParseLine(line).value == Entry(DecimalValue(d1), DecimalValue(d2), c, pwd);
    w1, w2 := PolicyPartSound(s2);
    assert s2 == w1 + ([c, ':'] + (w2 + pwd));
    assert n1 < |line| && line[n1] == '-';
    SplitAround(line, n1);
    TakeDrop(s1, n2);
  }

  /** Every line of the shape is accepted, with the values of its pieces; the
      password is the given one whenever it does not itself start with whitespace. */
  lemma ParseLineComplete(line: string, d1: string, d2: string, w1: string, c: char, w2: string, pwd: string)
    requires LineShape(line, d1, d2, w1, c, w2, pwd)
    ensures ParseLine(line).Success?
    ensures var e := ParseLine(line).value;
            e.firstNumber == DecimalValue(d1) && e.secondNumber == DecimalValue(d2) && e.policyCharacter == c
            && |e.password| <= |pwd| && e.password == pwd[|pwd| - |e.password|..]
            && (!IsJsWhitespace(pwd[0]) ==> e.password == pwd)
  {
    var s2 := w1 + ([c, ':'] + (w2 + pwd));
    var s1 := d2 + s2;
    LeadingDigitsAppend(d1, ['-'] + s1);
    AppendSlices(d1, ['-'] + s1);
    assert line[|d1| + 1..] == (['-'] + s1)[1..] == s1;
    LeadingDigitsAppend(d2, s2);
    AppendSlices(d2, s2);
    PolicyPartComplete(w1, c, w2, pwd);
    PasswordPartComplete(w2, pwd);
  }

  /** Formatting an entry the way the puzzle input writes it. */
  function Format(e: Entry): string {
    Decimal(e.firstNumber) + "-" + Decimal(e.secondNumber) + " " + [e.policyCharacter] + ": " + e.password
  }

  /** Parsing inverts formatting for every entry a line can express. */
  lemma ParseFormat(e: Entry)
    requires IsAsciiLetter(e.policyCharacter) && e.password != [] && NoLineTerminator(e.password)
    requires !IsJsWhitespace(e.password[0])
    ensures ParseLine(Format(e)) == Success(e)
  {
    DecimalRoundTrip(e.firstNumber);
    DecimalRoundTrip(e.secondNumber);
    assert Format(e) == Decimal(e.firstNumber) + "-" + Decimal(e.secondNumber) + " " + [e.policyCharacter] + ":" + " " + e.password;
    ParseLineComplete(Format(e), Decimal(e.firstNumber), Decimal(e.secondNumber), " ", e.policyCharacter, " ", e.password);
  }

  // ---- part 1 ----

  /** The number of occurrences of the policy character lies in [firstNumber, secondNumber]. */
  predicate ValidPart1(e: Entry) {
    e.firstNumber <= multiset(e.password)[e.policyCharacter] <= e.secondNumber
  }

  /** `isValidPart1`: counts the occurrences with a loop. */
  method IsValidPart1(e: Entry) returns (valid: bool)
    ensures valid <==> e.firstNumber <= multiset(e.password)[e.policyCharacter] <= e.secondNumber
  {
    var count := 0;
    for i := 0 to |e.password|
      invariant count == multiset(e.password[..i])[e.policyCharacter]
    {
      assert e.password[..i + 1] == e.password[..i] + [e.password[i]];
      if e.password[i] == e.policyCharacter {
        count := count + 1;
      }
    }
    assert e.password[..|e.password|] == e.password;
    valid := count >= e.firstNumber && count <= e.secondNumber;
  }

  /** Widening the bounds never turns a valid entry invalid. */
  lemma WideningKeepsPart1(e: Entry, lo: nat, hi: nat)
    requires lo <= e.firstNumber && e.secondNumber <= hi && ValidPart1(e)
    ensures ValidPart1(Entry(lo, hi, e.policyCharacter, e.password))
  {
  }

  // ---- part 2 ----

  /** `password[i]` in JavaScript: undefined outside the string. */
  function CharAt(s: string, i: int): Option<char> {
    if 0 <= i < |s| then Some(s[i]) else None
  }

  /** The 1-indexed position `p` of the password holds the policy character. */
  predicate HoldsAt(e: Entry, p: int) {
    1 <= p <= |e.password| && e.password[p - 1] == e.policyCharacter
  }

  /** `isValidPart2`: exactly one of the two positions holds the policy character. */
  function IsValidPart2(e: Entry): (valid: bool)
    ensures valid <==> (HoldsAt(e, e.firstNumber) && !HoldsAt(e, e.secondNumber))
                       || (!HoldsAt(e, e.firstNumber) && HoldsAt(e, e.secondNumber))
  {
    var firstMatches := CharAt(e.password, e.firstNumber - 1) == Some(e.policyCharacter);
    var secondMatches := CharAt(e.password, e.secondNumber - 1) == Some(e.policyCharacter);
    (firstMatches || secondMatches) && !(firstMatches && secondMatches)
  }

  /** Equal positions can never hold exactly one match. */
  lemma SamePositionsInvalid(e: Entry)
    requires e.firstNumber == e.secondNumber
    ensures !IsValidPart2(e)
  {
  }

  /** Position 0 and positions past the end never match; with both out of range the entry is invalid. */
  lemma OutOfRangeInvalid(e: Entry)
    requires e.firstNumber == 0 || e.firstNumber > |e.password|
    requires e.secondNumber == 0 || e.secondNumber > |e.password|
    ensures !IsValidPart2(e)
  {
  }

  /** A password shorter than the larger position can still be valid: "1-5 a: ab". */
  lemma ShortPasswordCanBeValid()
    ensures IsValidPart2(Entry(1, 5, 'a', "ab"))
  {
  }

  // ---- solve ----

  /** `solve`: the number of entries valid under each policy. */
  function Solve(lines: seq<string>): (r: Result<(nat, nat)>)
    ensures r.Success? <==> forall i :: 0 <= i < |lines| ==> ParseLine(lines[i]).Success?
    ensures r.Success? ==> r.value.0 <= |lines| && r.value.1 <= |lines|
  {
    var entries :- MapAll(lines, ParseLine);
    Success((CountWhere(entries, ValidPart1), CountWhere(entries, IsValidPart2)))
  }
}
