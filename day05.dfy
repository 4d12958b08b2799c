/** Binary Boarding: a boarding pass code is a binary number written with F/L for 0
    and B/R for 1; part 1 is the highest seat id, part 2 the missing seat between two
    occupied ones. */
module Day05 {
  import opened Wrappers

  // ---- decoding ----

  predicate IsCodeChar(c: char) { c == 'F' || c == 'B' || c == 'L' || c == 'R' }

  /** The lines the decoder is meant for: non-empty words over F, B, L, R. */
  predicate IsBoardingCode(code: string) {
    |code| > 0 && forall i :: 0 <= i < |code| ==> IsCodeChar(code[i])
  }

  /** A code of 7 row letters (F/B) followed by 3 column letters (L/R). */
  predicate IsSeatCode(code: string) {
    |code| == 10 && (forall i :: 0 <= i < 7 ==> code[i] == 'F' || code[i] == 'B')
    && (forall i :: 7 <= i < 10 ==> code[i] == 'L' || code[i] == 'R')
  }

  /** The two `replace` calls: F and L become `0`, B and R become `1`. */
  function BinaryDigit(c: char): char {
    if c == 'F' || c == 'L' then '0' else if c == 'B' || c == 'R' then '1' else c
  }

  function BinaryString(code: string): (s: string)
    ensures |s| == |code| && forall i :: 0 <= i < |s| ==> s[i] == BinaryDigit(code[i])
  {
    seq(|code|, i requires 0 <= i < |code| => BinaryDigit(code[i]))
  }

  predicate IsBinary(s: string) { forall i :: 0 <= i < |s| ==> s[i] == '0' || s[i] == '1' }

  /** `parseInt(s, 2)` on a string of binary digits, most significant first. */
  function BinaryValue(s: string): nat
    requires IsBinary(s)
  {
    if s == [] then 0 else 2 * BinaryValue(s[..|s| - 1]) + (if s[|s| - 1] == '1' then 1 else 0)
  }

  function Pow2(k: nat): (p: nat)
    ensures p >= 1
  {
    if k == 0 then 1 else 2 * Pow2(k - 1)
  }

  /** `seatIdFromCode`. */
  function SeatIdFromCode(code: string): (id: nat)
    requires IsBoardingCode(code)
    ensures id < Pow2(|code|)
  {
    BinaryBound(BinaryString(code));
    BinaryValue(BinaryString(code))
  }

  lemma {:induction false} BinaryBound(s: string)
    requires IsBinary(s)
    ensures BinaryValue(s) < Pow2(|s|)
  {
    if s != [] {
      BinaryBound(s[..|s| - 1]);
    }
  }

  /** The digits of a concatenation: the high part is shifted by the length of the low part. */
  lemma {:induction false} BinaryAppend(a: string, b: string)
    requires IsBinary(a) && IsBinary(b)
    ensures IsBinary(a + b) && BinaryValue(a + b) == BinaryValue(a) * Pow2(|b|) + BinaryValue(b)
    decreases |b|
  {
    if b != [] {
      var b' := b[..|b| - 1];
      assert (a + b)[..|a + b| - 1] == a + b';
      BinaryAppend(a, b');
      assert BinaryValue(a) * Pow2(|b|) == 2 * (BinaryValue(a) * Pow2(|b'|));
    } else {
      assert a + b == a;
    }
  }

  /** The row/column reading: the id of a seat code is row * 8 + column, in 0..1023. */
  lemma RowTimesEightPlusColumn(code: string)
    requires IsSeatCode(code)
    ensures SeatIdFromCode(code) == SeatIdFromCode(code[..7]) * 8 + SeatIdFromCode(code[7..])
    ensures SeatIdFromCode(code[..7]) < 128 && SeatIdFromCode(code[7..]) < 8
    ensures SeatIdFromCode(code) < 1024
  {
    var bin := BinaryString(code);
    assert bin == BinaryString(code[..7]) + BinaryString(code[7..]);
    BinaryAppend(BinaryString(code[..7]), BinaryString(code[7..]));
    assert Pow2(3) == 8 && Pow2(7) == 128 && Pow2(10) == 1024;
  }

  /** Binary strings of one length read as distinct numbers. */
  lemma {:induction false} BinaryInjective(s: string, t: string)
    requires IsBinary(s) && IsBinary(t) && |s| == |t| && BinaryValue(s) == BinaryValue(t)
    ensures s == t
  {
    if s != [] {
      var n := |s| - 1;
      assert s[n] == t[n];
      BinaryInjective(s[..n], t[..n]);
      assert s == s[..n] + [s[n]] && t == t[..n] + [t[n]];
    }
  }

  /** Distinct seat codes decode to distinct seat ids. */
  lemma SeatIdsDistinct(code1: string, code2: string)
    requires IsSeatCode(code1) && IsSeatCode(code2) && code1 != code2
    ensures SeatIdFromCode(code1) != SeatIdFromCode(code2)
  {
    if SeatIdFromCode(code1) == SeatIdFromCode(code2) {
      BinaryInjective(BinaryString(code1), BinaryString(code2));
    }
  }

  /** The n letters writing v in binary, most significant first, with `zero` for 0 and `one`
      for 1. */
  function Letters(v: nat, n: nat, zero: char, one: char): (code: string)
    ensures |code| == n && forall i :: 0 <= i < n ==> code[i] == zero || code[i] == one
  {
    if n == 0 then [] else Letters(v / 2, n - 1, zero, one) + [if v % 2 == 1 then one else zero]
  }

  /** The seat code of a seat id in 0..1023: the row in F/B, then the column in L/R. */
  function SeatCode(id: nat): (code: string)
    requires id < 1024
    ensures IsSeatCode(code)
  {
    Letters(id / 8, 7, 'F', 'B') + Letters(id % 8, 3, 'L', 'R')
  }

  /** Written with letters the decoder reads as 0 and 1, a number below 2^n reads back. */
  lemma {:induction false} LettersValue(v: nat, n: nat, zero: char, one: char)
    requires BinaryDigit(zero) == '0' && BinaryDigit(one) == '1' && v < Pow2(n)
    ensures IsBinary(BinaryString(Letters(v, n, zero, one)))
    ensures BinaryValue(BinaryString(Letters(v, n, zero, one))) == v
  {
    if n > 0 {
      var prefix := Letters(v / 2, n - 1, zero, one);
      LettersValue(v / 2, n - 1, zero, one);
      var bin := BinaryString(Letters(v, n, zero, one));
      assert bin == BinaryString(prefix) + [if v % 2 == 1 then '1' else '0'];
      assert bin[..|bin| - 1] == BinaryString(prefix);
    }
  }

  /** Every id in 0..1023 is the id of a seat code: decoding its code gives it back. */
  lemma SeatCodeDecodes(id: nat)
    requires id < 1024
    ensures SeatIdFromCode(SeatCode(id)) == id
  {
    var code := SeatCode(id);
    assert Pow2(3) == 8 && Pow2(7) == 128;
    LettersValue(id / 8, 7, 'F', 'B');
    LettersValue(id % 8, 3, 'L', 'R');
    assert code[..7] == Letters(id / 8, 7, 'F', 'B') && code[7..] == Letters(id % 8, 3, 'L', 'R');
    RowTimesEightPlusColumn(code);
  }

  /** Encoding the id of a seat code gives back the code: the decoder is a bijection between
      seat codes and 0..1023. */
  lemma SeatCodeEncodes(code: string)
    requires IsSeatCode(code)
    ensures SeatIdFromCode(code) < 1024 && SeatCode(SeatIdFromCode(code)) == code
  {
    RowTimesEightPlusColumn(code);
    var id := SeatIdFromCode(code);
    SeatCodeDecodes(id);
    if SeatCode(id) != code {
      SeatIdsDistinct(SeatCode(id), code);
    }
  }

  // ---- part 1 ----

  /** `Math.max(...seatIds)`; the empty input (where it gives -Infinity) has no maximum. */
  function MaxOf(s: seq<int>): (m: Option<int>)
    ensures m.None? <==> s == []
    ensures m.Some? ==> m.value in s && forall i :: 0 <= i < |s| ==> s[i] <= m.value
  {
    if s == [] then None
    else
      match MaxOf(s[1..])
      case None => Some(s[0])
      case Some(rest) => Some(if s[0] >= rest then s[0] else rest)
  }

  // ---- part 2 ----

  predicate SortedAscending(s: seq<int>) {
    forall i, j :: 0 <= i < j < |s| ==> s[i] <= s[j]
  }

  function Insert(x: int, s: seq<int>): (r: seq<int>)
    requires SortedAscending(s)
    ensures |r| == |s| + 1 && SortedAscending(r) && multiset(r) == multiset(s) + multiset{x}
    ensures r[0] == x || (s != [] && r[0] == s[0])
  {
    if s == [] then [x]
    else if x <= s[0] then
      ConsSorted(x, s);
      [x] + s
    else
      var t := Insert(x, s[1..]);
      assert s == [s[0]] + s[1..];
      ConsSorted(s[0], t);
      [s[0]] + t
  }

  /** Putting an element no larger than the head in front keeps a sequence ascending. */
  lemma ConsSorted(x: int, s: seq<int>)
    requires SortedAscending(s) && s != [] && x <= s[0]
    ensures SortedAscending([x] + s)
  {
    forall i, j | 0 <= i < j < |s| + 1 ensures ([x] + s)[i] <= ([x] + s)[j] {
      if i > 0 {
        assert ([x] + s)[i] == s[i - 1];
      }
    }
  }

  /** `seatIds.sort((a, b) => a - b)`: the ids in ascending order. */
  function SortAscending(s: seq<int>): (r: seq<int>)
    ensures SortedAscending(r) && multiset(r) == multiset(s)
  {
    if s == [] then []
    else
      assert s == [s[0]] + s[1..];
      Insert(s[0], SortAscending(s[1..]))
  }

  /** Positions i-1 and i of the sorted ids differ by exactly 2. */
  predicate PairAt(sorted: seq<int>, i: int) {
    1 <= i < |sorted| && sorted[i] - sorted[i - 1] == 2
  }

  /** The scan of part 2: the first adjacent pair that differs by exactly 2. */
  method FindGap(sorted: seq<int>) returns (part2: Option<int>)
    ensures part2.None? <==> forall i :: !PairAt(sorted, i)
    ensures part2.Some? ==> exists i :: PairAt(sorted, i) && part2.value == sorted[i - 1] + 1
                                        && forall j :: j < i ==> !PairAt(sorted, j)
  {
    var i := 1;
    while i < |sorted|
      invariant 1 <= i && forall j :: j < i ==> !PairAt(sorted, j)
    {
      var previousId := sorted[i - 1];
      var currentId := sorted[i];
      if currentId - previousId == 2 {
        assert PairAt(sorted, i);
        return Some(previousId + 1);
      }
      i := i + 1;
    }
    return None;
  }

  /** A free seat whose two neighbours are taken. */
  predicate IsGap(ids: seq<int>, x: int) {
    x !in ids && x - 1 in ids && x + 1 in ids
  }

  /** In an ascending sequence, a pair differing by 2 brackets a gap. */
  lemma PairGivesGap(s: seq<int>, i: int)
    requires SortedAscending(s) && PairAt(s, i)
    ensures IsGap(s, s[i - 1] + 1)
  {
  }

  /** In an ascending sequence, every gap is bracketed by an adjacent pair differing by 2. */
  lemma GapGivesPair(s: seq<int>, x: int) returns (i: int)
    requires SortedAscending(s) && IsGap(s, x)
    ensures 1 <= i < |s| && s[i - 1] == x - 1 && s[i] == x + 1
  {
    var k :| 0 <= k < |s| && s[k] == x + 1;
    var j :| 0 <= j < |s| && s[j] == x - 1;
    while j + 1 < |s| && s[j + 1] == x - 1
      invariant 0 <= j < |s| && s[j] == x - 1
      decreases |s| - j
    {
      j := j + 1;
    }
    assert s[j + 1] <= s[k];
    assert s[j + 1] != x;
    i := j + 1;
  }

  /** The first pair differing by 2 brackets the smallest gap. */
  lemma FirstPairSmallestGap(s: seq<int>, i: int, y: int)
    requires SortedAscending(s) && PairAt(s, i) && forall j :: j < i ==> !PairAt(s, j)
    requires IsGap(s, y)
    ensures s[i - 1] + 1 <= y
  {
    var i' := GapGivesPair(s, y);
    assert PairAt(s, i');
  }

  /** `lines.map(seatIdFromCode)`. */
  function SeatIds(lines: seq<string>): (ids: seq<nat>)
    requires forall i :: 0 <= i < |lines| ==> IsBoardingCode(lines[i])
    ensures |ids| == |lines| && forall i :: 0 <= i < |lines| ==> ids[i] == SeatIdFromCode(lines[i])
  {
    seq(|lines|, i requires 0 <= i < |lines| => SeatIdFromCode(lines[i]))
  }

  /** A permutation has the same gaps. */
  lemma SameGaps(a: seq<int>, b: seq<int>, x: int)
    requires multiset(a) == multiset(b)
    ensures IsGap(a, x) <==> IsGap(b, x)
  {
    assert x in a <==> x in multiset(b);
    assert x - 1 in a <==> x - 1 in multiset(b);
    assert x + 1 in a <==> x + 1 in multiset(b);
  }

  /** What the scan finds on the sorted ids, read back on the ids themselves. */
  lemma ScanFindsSmallestGap(ids: seq<int>, sorted: seq<int>, part2: Option<int>)
    requires SortedAscending(sorted) && multiset(sorted) == multiset(ids)
    requires part2.None? <==> forall i :: !PairAt(sorted, i)
    requires part2.Some? ==> exists i :: PairAt(sorted, i) && part2.value == sorted[i - 1] + 1
                                         && forall j :: j < i ==> !PairAt(sorted, j)
    ensures part2.Some? ==> IsGap(ids, part2.value) && forall y :: IsGap(ids, y) ==> part2.value <= y
    ensures part2.None? ==> forall y :: !IsGap(ids, y)
  {
    if part2.Some? {
      var i :| PairAt(sorted, i) && part2.value == sorted[i - 1] + 1 && forall j :: j < i ==> !PairAt(sorted, j);
      PairGivesGap(sorted, i);
      SameGaps(sorted, ids, part2.value);
      forall y | IsGap(ids, y) ensures part2.value <= y {
        SameGaps(sorted, ids, y);
        FirstPairSmallestGap(sorted, i, y);
      }
    } else {
      forall y | IsGap(ids, y) ensures false {
        SameGaps(sorted, ids, y);
        var i := GapGivesPair(sorted, y);
        assert PairAt(sorted, i);
      }
    }
  }

  /** `solve`: part 1 the highest id, part 2 the smallest free seat between two taken ones
      (null when there is none). */
  method Solve(lines: seq<string>) returns (part1: Option<int>, part2: Option<int>)
    requires forall i :: 0 <= i < |lines| ==> IsBoardingCode(lines[i])
    ensures var ids := SeatIds(lines);
            && part1 == MaxOf(ids)
            && (part2.Some? ==> IsGap(ids, part2.value) && forall y :: IsGap(ids, y) ==> part2.value <= y)
            && (part2.None? ==> forall y :: !IsGap(ids, y))
  {
    var seatIds := SeatIds(lines);
    part1 := MaxOf(seatIds);
    var sorted := SortAscending(seatIds);
    part2 := FindGap(sorted);
    ScanFindsSmallestGap(seatIds, sorted, part2);
  }
}
