/** Character classes, decimal numerals and the string splits the solvers use.
    A string is a sequence of characters; JavaScript strings are sequences of UTF-16 code
    units, and the two agree on text within the Basic Multilingual Plane, which is the text
    these solvers read. */
module Text {

  // ---- character classes ----

  predicate IsDigit(c: char) { '0' <= c <= '9' }

  predicate IsDigits(s: string) { forall i :: 0 <= i < |s| ==> IsDigit(s[i]) }

  predicate IsAsciiLetter(c: char) { 'a' <= c <= 'z' || 'A' <= c <= 'Z' }

  /** The characters JavaScript's regular expression class `\s` matches. */
  predicate IsJsWhitespace(c: char) {
    || c == '\t' || c == '\n' || c == '\U{000B}' || c == '\U{000C}' || c == '\r' || c == ' '
    || c == '\U{00A0}' || c == '\U{1680}' || ('\U{2000}' <= c <= '\U{200A}')
    || c == '\U{2028}' || c == '\U{2029}' || c == '\U{202F}' || c == '\U{205F}'
    || c == '\U{3000}' || c == '\U{FEFF}'
  }

  /** The characters JavaScript's `.` does not match (without the `s` flag). */
  predicate IsLineTerminator(c: char) {
    c == '\n' || c == '\r' || c == '\U{2028}' || c == '\U{2029}'
  }

  /** Text that `.+` or `.*` may consume. */
  predicate NoLineTerminator(s: string) {
    forall i :: 0 <= i < |s| ==> !IsLineTerminator(s[i])
  }

  // ---- decimal numerals ----

  function DigitValue(c: char): (d: nat)
    requires IsDigit(c)
    ensures d < 10
  {
    (c as int) - ('0' as int)
  }

  function DigitChar(d: nat): (c: char)
    requires d < 10
    ensures IsDigit(c) && DigitValue(c) == d
  {
    ('0' as int + d) as char
  }

  /** The value JavaScript's `Number` gives a string of decimal digits (leading zeros allowed). */
  function DecimalValue(s: string): nat
    requires IsDigits(s)
  {
    if s == [] then 0 else 10 * DecimalValue(s[..|s| - 1]) + DigitValue(s[|s| - 1])
  }

  /** The shortest decimal numeral of `n`. */
  function Decimal(n: nat): (s: string)
    ensures s != []
  {
    if n < 10 then [DigitChar(n)] else Decimal(n / 10) + [DigitChar(n % 10)]
  }

  lemma {:induction false} DecimalRoundTrip(n: nat)
    ensures IsDigits(Decimal(n)) && DecimalValue(Decimal(n)) == n
  {
    if n >= 10 {
      DecimalRoundTrip(n / 10);
      var s := Decimal(n);
      assert s[..|s| - 1] == Decimal(n / 10);
    }
  }

  /** A numeral with `k` digits and no leading zero denotes a number in [10^(k-1), 10^k). */
  lemma {:induction false} DecimalLength(n: nat, lo: nat, k: nat)
    requires k >= 1 && lo == Pow10(k - 1) && lo <= n < 10 * lo
    ensures |Decimal(n)| == k
  {
    if k > 1 {
      assert Pow10(k - 1) == 10 * Pow10(k - 2);
      DecimalLength(n / 10, Pow10(k - 2), k - 1);
    }
  }

  function Pow10(k: nat): (p: nat)
    ensures p >= 1
  {
    if k == 0 then 1 else 10 * Pow10(k - 1)
  }

  /** The value of `k` decimal digits is below 10^k. */
  lemma {:induction false} DecimalValueBound(s: string)
    requires IsDigits(s)
    ensures DecimalValue(s) < Pow10(|s|)
  {
    if s != [] {
      DecimalValueBound(s[..|s| - 1]);
    }
  }

  // ---- maximal prefixes (the greedy `\d+` and `\s+` of a regular expression) ----

  /** The length of the longest prefix of `s` made of digits. */
  function LeadingDigits(s: string): (n: nat)
    ensures n <= |s| && IsDigits(s[..n]) && (n < |s| ==> !IsDigit(s[n]))
  {
    if s != [] && IsDigit(s[0]) then
      var m := LeadingDigits(s[1..]);
      assert s[..1 + m] == [s[0]] + s[1..][..m];
      1 + m
    else 0
  }

  predicate AllWhitespace(s: string) { forall i :: 0 <= i < |s| ==> IsJsWhitespace(s[i]) }

  /** The length of the longest prefix of `s` made of `\s` characters. */
  function LeadingWhitespace(s: string): (n: nat)
    ensures n <= |s| && AllWhitespace(s[..n]) && (n < |s| ==> !IsJsWhitespace(s[n]))
  {
    if s != [] && IsJsWhitespace(s[0]) then
      var m := LeadingWhitespace(s[1..]);
      assert s[..1 + m] == [s[0]] + s[1..][..m];
      1 + m
    else 0
  }

  lemma {:induction false} LeadingDigitsAppend(a: string, b: string)
    requires IsDigits(a) && (b == [] || !IsDigit(b[0]))
    ensures LeadingDigits(a + b) == |a|
  {
    if a != [] {
      assert (a + b)[1..] == a[1..] + b;
      LeadingDigitsAppend(a[1..], b);
    } else {
      assert a + b == b;
    }
  }

  lemma {:induction false} LeadingWhitespaceAppend(a: string, b: string)
    requires AllWhitespace(a)
    ensures LeadingWhitespace(a + b) == |a| + LeadingWhitespace(b)
  {
    if a != [] {
      assert (a + b)[1..] == a[1..] + b;
      LeadingWhitespaceAppend(a[1..], b);
    } else {
      assert a + b == b;
    }
  }

  // ---- splitting ----

  /** `s.split(c)` for a one-character separator: the pieces between the occurrences of `c`. */
  function SplitOnChar(s: string, sep: char): (parts: seq<string>)
    ensures |parts| >= 1
    ensures forall k :: 0 <= k < |parts| ==> sep !in parts[k]
  {
    if s == [] then [[]]
    else
      var rest := SplitOnChar(s[1..], sep);
      if s[0] == sep then [[]] + rest else [[s[0]] + rest[0]] + rest[1..]
  }

  function JoinWithChar(parts: seq<string>, sep: char): string
    requires |parts| >= 1
  {
    if |parts| == 1 then parts[0] else parts[0] + [sep] + JoinWithChar(parts[1..], sep)
  }

  /** Splitting loses nothing: joining the pieces back with the separator gives the text. */
  lemma {:induction false} SplitOnCharJoin(s: string, sep: char)
    ensures JoinWithChar(SplitOnChar(s, sep), sep) == s
  {
    if s != [] {
      SplitOnCharJoin(s[1..], sep);
      var rest := SplitOnChar(s[1..], sep);
      if s[0] != sep && |rest| > 1 {
        assert ([[s[0]] + rest[0]] + rest[1..])[1..] == rest[1..];
      }
    }
  }

  /** `s.split(sep)` for a separator string: leftmost, non-overlapping occurrences. */
  function SplitOnString(s: string, sep: string): (parts: seq<string>)
    requires sep != []
    ensures |parts| >= 1
    decreases |s|
  {
    if s == [] then [[]]
    else if sep <= s then [[]] + SplitOnString(s[|sep|..], sep)
    else
      var rest := SplitOnString(s[1..], sep);
      [[s[0]] + rest[0]] + rest[1..]
  }

  function JoinWithString(parts: seq<string>, sep: string): string
    requires |parts| >= 1
  {
    if |parts| == 1 then parts[0] else parts[0] + sep + JoinWithString(parts[1..], sep)
  }

  lemma {:induction false} SplitOnStringJoin(s: string, sep: string)
    requires sep != []
    ensures JoinWithString(SplitOnString(s, sep), sep) == s
    decreases |s|
  {
    if s == [] {
    } else if sep <= s {
      var tail := SplitOnString(s[|sep|..], sep);
      SplitOnStringJoin(s[|sep|..], sep);
      assert ([[]] + tail)[1..] == tail;
      calc {
        JoinWithString(SplitOnString(s, sep), sep);
        [] + sep + JoinWithString(tail, sep);
        sep + s[|sep|..];
        s;
      }
    } else {
      var rest := SplitOnString(s[1..], sep);
      SplitOnStringJoin(s[1..], sep);
      var parts := [[s[0]] + rest[0]] + rest[1..];
      assert parts == SplitOnString(s, sep);
      if |rest| > 1 {
        assert parts[1..] == rest[1..];
        assert JoinWithString(parts, sep) == [s[0]] + JoinWithString(rest, sep);
      }
      assert s == [s[0]] + s[1..];
    }
  }

  lemma JoinFirst(pieces: seq<string>, sep: string)
    requires |pieces| >= 1 && pieces[0] != []
    ensures JoinWithString(pieces, sep) != [] && JoinWithString(pieces, sep)[0] == pieces[0][0]
  {
  }

  lemma {:induction false} JoinNoLineTerminator(pieces: seq<string>, sep: string)
    requires |pieces| >= 1 && NoLineTerminator(sep)
    requires forall k :: 0 <= k < |pieces| ==> NoLineTerminator(pieces[k])
    ensures NoLineTerminator(JoinWithString(pieces, sep))
  {
    if |pieces| > 1 {
      JoinNoLineTerminator(pieces[1..], sep);
      var rest := JoinWithString(pieces[1..], sep);
      var s := pieces[0] + sep + rest;
      forall i | 0 <= i < |s| ensures !IsLineTerminator(s[i]) {
        if i >= |pieces[0]| + |sep| {
          assert s[i] == rest[i - |pieces[0]| - |sep|];
        } else if i >= |pieces[0]| {
          assert s[i] == sep[i - |pieces[0]|];
        } else {
          assert s[i] == pieces[0][i];
        }
      }
    }
  }

  /** A piece without the first separator character splits off whole. */
  lemma {:induction false} SplitPrefix(p: string, x: string, sep: string)
    requires sep != [] && sep[0] !in p
    ensures SplitOnString(p + x, sep) == [p + SplitOnString(x, sep)[0]] + SplitOnString(x, sep)[1..]
    decreases |p|
  {
    var parts := SplitOnString(x, sep);
    if p == [] {
      assert p + x == x && p + parts[0] == parts[0];
      assert parts == [parts[0]] + parts[1..];
    } else {
      assert (p + x)[1..] == p[1..] + x;
      assert !(sep <= p + x) by { assert (p + x)[0] == p[0]; }
      SplitPrefix(p[1..], x, sep);
      assert [p[0]] + (p[1..] + parts[0]) == p + parts[0];
    }
  }

  /** Splitting undoes joining when no piece holds the first separator character. */
  lemma {:induction false} SplitJoin(pieces: seq<string>, sep: string)
    requires |pieces| >= 1 && sep != [] && forall k :: 0 <= k < |pieces| ==> sep[0] !in pieces[k]
    ensures SplitOnString(JoinWithString(pieces, sep), sep) == pieces
  {
    if |pieces| == 1 {
      SplitPrefix(pieces[0], [], sep);
      assert pieces[0] + [] == pieces[0];
    } else {
      var rest := JoinWithString(pieces[1..], sep);
      SplitJoin(pieces[1..], sep);
      assert JoinWithString(pieces, sep) == pieces[0] + (sep + rest);
      SplitPrefix(pieces[0], sep + rest, sep);
      assert sep <= sep + rest && (sep + rest)[|sep|..] == rest;
      var tail := SplitOnString(sep + rest, sep);
      assert tail == [[]] + pieces[1..];
      assert tail[0] == [] && tail[1..] == pieces[1..];
      assert pieces[0] + [] == pieces[0];
      assert pieces == [pieces[0]] + pieces[1..];
    }
  }

  /** The text after the maximal run of `\s` characters at the start of `s`. */
  function SkipWhitespace(s: string): (t: string)
    ensures |t| <= |s| && t == s[|s| - |t|..]
    ensures t == [] || !IsJsWhitespace(t[0])
    ensures forall i :: 0 <= i < |s| - |t| ==> IsJsWhitespace(s[i])
  {
    if s != [] && IsJsWhitespace(s[0]) then SkipWhitespace(s[1..]) else s
  }

  /** `s.split(/\s+/)`: the pieces between the maximal runs of `\s` characters. */
  function SplitOnWhitespace(s: string): (parts: seq<string>)
    ensures |parts| >= 1
    ensures forall k :: 0 <= k < |parts| ==> forall i :: 0 <= i < |parts[k]| ==> !IsJsWhitespace(parts[k][i])
    decreases |s|
  {
    if s == [] then [[]]
    else if IsJsWhitespace(s[0]) then [[]] + SplitOnWhitespace(SkipWhitespace(s))
    else
      var rest := SplitOnWhitespace(s[1..]);
      [[s[0]] + rest[0]] + rest[1..]
  }

  function Concat(parts: seq<string>): string {
    if parts == [] then [] else parts[0] + Concat(parts[1..])
  }

  function RemoveWhitespace(s: string): string {
    if s == [] then []
    else if IsJsWhitespace(s[0]) then RemoveWhitespace(s[1..])
    else [s[0]] + RemoveWhitespace(s[1..])
  }

  /** The whitespace split keeps every other character, in order. */
  lemma {:induction false} SplitOnWhitespaceKeepsText(s: string)
    ensures Concat(SplitOnWhitespace(s)) == RemoveWhitespace(s)
    decreases |s|
  {
    if s == [] {
    } else if IsJsWhitespace(s[0]) {
      SplitOnWhitespaceKeepsText(SkipWhitespace(s));
      SkipWhitespaceRemoves(s);
      assert ([[]] + SplitOnWhitespace(SkipWhitespace(s)))[1..] == SplitOnWhitespace(SkipWhitespace(s));
    } else {
      SplitOnWhitespaceKeepsText(s[1..]);
      var rest := SplitOnWhitespace(s[1..]);
      var parts := [[s[0]] + rest[0]] + rest[1..];
      assert parts[1..] == rest[1..];
      assert Concat(rest) == rest[0] + Concat(rest[1..]);
    }
  }

  lemma {:induction false} SkipWhitespaceRemoves(s: string)
    ensures RemoveWhitespace(SkipWhitespace(s)) == RemoveWhitespace(s)
  {
    if s != [] && IsJsWhitespace(s[0]) {
      SkipWhitespaceRemoves(s[1..]);
    }
  }
}

/** Sequence helpers standing for JavaScript's `filter(...).length` and `reduce` sums. */
module Seqs {

  /** The number of elements of `s` that satisfy `p`. */
  function CountWhere<T>(s: seq<T>, p: T -> bool): (n: nat)
    ensures n <= |s|
  {
    if s == [] then 0 else (if p(s[0]) then 1 else 0) + CountWhere(s[1..], p)
  }

  /** A predicate implied by another is satisfied at least as often. */
  lemma {:induction false} CountWhereMonotone<T>(s: seq<T>, p: T -> bool, q: T -> bool)
    requires forall x :: x in s && p(x) ==> q(x)
    ensures CountWhere(s, p) <= CountWhere(s, q)
  {
    if s != [] {
      CountWhereMonotone(s[1..], p, q);
    }
  }

  /** `s.reduce((sum, x) => sum + f(x), 0)`. */
  function SumOf<T>(s: seq<T>, f: T -> nat): nat {
    if s == [] then 0 else SumOf(s[..|s| - 1], f) + f(s[|s| - 1])
  }

  /** A sum of smaller terms is smaller. */
  lemma {:induction false} SumOfMonotone<T>(s: seq<T>, f: T -> nat, g: T -> nat)
    requires forall x :: x in s ==> f(x) <= g(x)
    ensures SumOf(s, f) <= SumOf(s, g)
  {
    if s != [] {
      assert forall x :: x in s[..|s| - 1] ==> x in s;
      SumOfMonotone(s[..|s| - 1], f, g);
    }
  }
}
