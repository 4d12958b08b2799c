/** Shuttle Search: part 1 picks the bus with the shortest wait after the earliest
    departure time; part 2 finds the first timestamp at which every listed bus leaves at its
    offset in the list, adding one bus at a time and stepping by the least common multiple
    of the buses already placed. */
module Shuttle {
  import opened Wrappers
  import opened Text

  // ---- divisibility ----

  /** d divides n; only 0 is a multiple of 0. */
  predicate Divides(d: nat, n: int) {
    if d == 0 then n == 0 else n % d == 0
  }

  function Abs(n: int): nat {
    if n < 0 then -n else n
  }

  /** A product with d as a factor is a multiple of d. */
  lemma MultipleMod(d: nat, q: int)
    requires d > 0
    ensures (d * q) % d == 0
  {
    var x := d * q;
    var z := q - x / d;
    assert x == d * (x / d) + x % d;
    assert d * z == x % d;
    ProductSign(d, z);
  }

  lemma ProductSign(d: nat, z: int)
    requires d > 0
    ensures z >= 1 ==> d * z >= d
    ensures z <= -1 ==> d * z <= -(d as int)
  {
  }

  /** A multiple of d is d times its quotient. */
  lemma DividesQuotient(d: nat, n: int)
    requires d > 0 && Divides(d, n)
    ensures n == d * (n / d)
  {
  }

  lemma DividesSum(d: nat, n: int, m: int)
    requires Divides(d, n) && Divides(d, m)
    ensures Divides(d, n + m) && Divides(d, n - m)
  {
    if d > 0 {
      DividesQuotient(d, n);
      DividesQuotient(d, m);
      assert n + m == d * (n / d + m / d);
      assert n - m == d * (n / d - m / d);
      MultipleMod(d, n / d + m / d);
      MultipleMod(d, n / d - m / d);
    }
  }

  lemma DividesProduct(d: nat, n: int, k: int)
    requires Divides(d, n)
    ensures Divides(d, n * k)
  {
    if d > 0 {
      DividesQuotient(d, n);
      assert n * k == d * ((n / d) * k);
      MultipleMod(d, (n / d) * k);
    }
  }

  lemma DividesNegation(d: nat, n: int)
    ensures Divides(d, n) <==> Divides(d, -n)
  {
    if Divides(d, n) {
      DividesSum(d, 0, n);
    }
    if Divides(d, -n) {
      DividesSum(d, 0, -n);
    }
  }

  // ---- gcd ----

  /** Euclid's algorithm on non-negative numbers. */
  function Gcd(x: nat, y: nat): nat
    decreases y
  {
    if y == 0 then x else Gcd(y, x % y)
  }

  /** The gcd divides both numbers. */
  lemma {:induction false} GcdDivides(x: nat, y: nat)
    ensures Divides(Gcd(x, y), x) && Divides(Gcd(x, y), y)
    decreases y
  {
    if y > 0 {
      GcdDivides(y, x % y);
      var g := Gcd(x, y);
      assert x == y * (x / y) + x % y;
      DividesProduct(g, y, x / y);
      DividesSum(g, y * (x / y), x % y);
    }
  }

  /** Every common divisor divides the gcd. */
  lemma {:induction false} GcdGreatest(x: nat, y: nat, d: nat)
    requires d > 0 && Divides(d, x) && Divides(d, y)
    ensures Divides(d, Gcd(x, y))
    decreases y
  {
    if y > 0 {
      assert x % y == x - y * (x / y);
      DividesProduct(d, y, x / y);
      DividesSum(d, x, y * (x / y));
      GcdGreatest(y, x % y, d);
    }
  }

  /** The gcd is 0 only for two zeros, and then divides nothing else. */
  lemma {:induction false} GcdZero(x: nat, y: nat)
    ensures Gcd(x, y) == 0 <==> x == 0 && y == 0
    decreases y
  {
    if y > 0 {
      GcdZero(y, x % y);
    }
  }

  /** Bezout coefficients: x * u + y * v is the gcd. */
  lemma {:induction false} Bezout(x: nat, y: nat) returns (u: int, v: int)
    ensures x * u + y * v == Gcd(x, y)
    decreases y
  {
    if y == 0 {
      u, v := 1, 0;
    } else {
      var u', v' := Bezout(y, x % y);
      var q := x / y;
      assert x % y == x - y * q;
      assert y * u' + (x - y * q) * v' == Gcd(x, y);
      assert (x - y * q) * v' == x * v' - y * (q * v');
      u, v := v', u' - q * v';
      assert y * (u' - q * v') == y * u' - y * (q * v');
    }
  }

  /** `gcdBigInt`: Euclid's loop on the absolute values. */
  method GcdBigInt(a: int, b: int) returns (g: nat)
    ensures g == Gcd(Abs(a), Abs(b))
    ensures Divides(g, a) && Divides(g, b)
    ensures forall d: nat :: d > 0 && Divides(d, a) && Divides(d, b) ==> Divides(d, g)
    ensures b == 0 ==> g == Abs(a)
  {
    var x: nat := if a < 0 then -a else a;
    var y: nat := if b < 0 then -b else b;
    while y != 0
      invariant Gcd(x, y) == Gcd(Abs(a), Abs(b))
      decreases y
    {
      var temp := x % y;
      x := y;
      y := temp;
    }
    g := x;
    GcdDivides(Abs(a), Abs(b));
    DividesNegation(g, a);
    DividesNegation(g, b);
    forall d: nat | d > 0 && Divides(d, a) && Divides(d, b) ensures Divides(d, g) {
      DividesNegation(d, a);
      DividesNegation(d, b);
      GcdGreatest(Abs(a), Abs(b), d);
    }
  }

  // ---- lcm ----

  /** BigInt `/`, which truncates toward zero. */
  function Quot(a: int, b: int): int
    requires b != 0
  {
    if (a >= 0) == (b > 0) then Abs(a) / Abs(b) else -(Abs(a) / Abs(b))
  }

  /** `lcmBigInt`: `(a / gcd) * b`, a `RangeError` when both are 0 (the gcd is 0). */
  function Lcm(a: int, b: int): Result<int> {
    var g := Gcd(Abs(a), Abs(b));
    if g == 0 then Failure("Division by zero") else Success(Quot(a, g) * b)
  }

  method LcmBigInt(a: int, b: int) returns (r: Result<int>)
    ensures r == Lcm(a, b)
  {
    var g := GcdBigInt(a, b);
    if g == 0 {
      return Failure("Division by zero");
    }
    return Success(Quot(a, g) * b);
  }

  /** For positive numbers the lcm is positive, a common multiple, and divides every common
      multiple; it fails exactly for two zeros. */
  lemma LcmMeaning(a: int, b: int)
    ensures Lcm(a, b).Failure? <==> a == 0 && b == 0
    ensures a > 0 && b > 0 ==>
              && Lcm(a, b).Success? && Lcm(a, b).value > 0
              && Divides(a, Lcm(a, b).value) && Divides(b, Lcm(a, b).value)
              && forall m: int :: Divides(a, m) && Divides(b, m) ==> Divides(Lcm(a, b).value as nat, m)
  {
    GcdZero(Abs(a), Abs(b));
    if a > 0 && b > 0 {
      LcmPositive(a, b);
    }
  }

  lemma LcmPositive(a: nat, b: nat)
    requires a > 0 && b > 0
    ensures Lcm(a, b).Success? && Lcm(a, b).value > 0
    ensures Divides(a, Lcm(a, b).value) && Divides(b, Lcm(a, b).value)
    ensures forall m: int :: Divides(a, m) && Divides(b, m) ==> Divides(Lcm(a, b).value as nat, m)
  {
    var g := Gcd(a, b);
    GcdZero(a, b);
    GcdDivides(a, b);
    DividesQuotient(g, a);
    DividesQuotient(g, b);
    var a', b' := a / g, b / g;
    var l := a' * b;
    assert Lcm(a, b) == Success(l);
    assert a' > 0 && l > 0;
    assert l == a * b' by {
      calc {
        l;
        a' * (g * b');
        (g * a') * b';
        a * b';
      }
    }
    MultipleMod(a, b');
    MultipleMod(b, a');
    assert Divides(b, l) by {
      assert l == b * a';
    }
    forall m: int | Divides(a, m) && Divides(b, m) ensures Divides(l, m) {
      LcmLeast(a, b, g, a', l, m);
    }
  }

  /** The lcm divides every common multiple: with x u + y v = g, the common multiple m gives
      m g = a b (t u + s v) = l g (t u + s v). */
  lemma LcmLeast(a: nat, b: nat, g: nat, a': nat, l: nat, m: int)
    requires a > 0 && b > 0 && g == Gcd(a, b) && g > 0 && a == g * a' && l == a' * b
    requires Divides(a, m) && Divides(b, m)
    ensures Divides(l, m)
  {
    var u, v := Bezout(a, b);
    DividesQuotient(a, m);
    DividesQuotient(b, m);
    var s, t := m / a, m / b;
    var k := t * u + s * v;
    assert m * g == a * b * k by {
      assert m * g == m * (a * u) + m * (b * v) by {
        Distribute(m, a * u, b * v);
      }
      assert m * (a * u) == a * b * (t * u) by {
        Rearrange(m, b, t, a, u);
      }
      assert m * (b * v) == a * b * (s * v) by {
        Rearrange(m, a, s, b, v);
      }
      Distribute(a * b, t * u, s * v);
    }
    assert a * b == l * g by {
      Rotate(g, a', b);
    }
    assert m * g == (l * k) * g by {
      Swap(l, g, k);
    }
    Cancel(m, l * k, g);
    MultipleMod(l, k);
  }

  lemma Distribute(m: int, p: int, q: int)
    ensures m * (p + q) == m * p + m * q
  {
  }

  /** With m = x y, m (z w) = (z x) (y w). */
  lemma Rearrange(m: int, x: int, y: int, z: int, w: int)
    requires m == x * y
    ensures m * (z * w) == z * x * (y * w)
  {
  }

  /** (x y) z = x (y z) = (y z) x. */
  lemma Rotate(x: int, y: int, z: int)
    ensures (x * y) * z == (y * z) * x
  {
  }

  /** (x y) z = (x z) y. */
  lemma Swap(x: int, y: int, z: int)
    ensures (x * y) * z == (x * z) * y
  {
  }

  lemma Cancel(x: int, y: int, g: int)
    requires g > 0 && x * g == y * g
    ensures x == y
  {
    assert (x - y) * g == 0;
  }

  // ---- part 1 ----

  /** The `%` of JavaScript numbers on integers: truncating, so the remainder takes the
      sign of the dividend; `None` is the `NaN` of a zero divisor. */
  function JsRem(a: int, b: int): (r: Option<int>)
    ensures r.None? <==> b == 0
    ensures r.Some? ==> Abs(r.value) < Abs(b) && (a - r.value) % b == 0
    ensures r.Some? && a >= 0 ==> r.value >= 0
    ensures r.Some? && a < 0 ==> r.value <= 0
  {
    if b == 0 then None
    else
      var m := Abs(a) % Abs(b);
      assert (Abs(a) - m) % Abs(b) == 0 by {
        assert Abs(a) - m == Abs(b) * (Abs(a) / Abs(b));
        MultipleMod(Abs(b), Abs(a) / Abs(b));
      }
      var r := if a >= 0 then m else -m;
      assert Divides(Abs(b), a - r) by {
        DividesNegation(Abs(b), Abs(a) - m);
      }
      DividesNegation(Abs(b), b);
      assert (a - r) % b == 0 by {
        DividesOfAbs(b, a - r);
      }
      Some(r)
  }

  /** Divisibility by b and by |b| are the same thing. */
  lemma DividesOfAbs(b: int, n: int)
    requires b != 0 && Divides(Abs(b), n)
    ensures n % b == 0
  {
    if b < 0 {
      DividesQuotient(Abs(b), n);
      assert n == b * -(n / Abs(b));
      assert n == b * (n / b) + n % b;
      var z := -(n / Abs(b)) - n / b;
      assert b * z == n % b;
      ProductSign(Abs(b), -z);
    }
  }

  /** `(busId - (earliestTimestamp % busId)) % busId`, `None` for the `NaN` of a
      zero id. */
  function Wait(earliest: int, busId: int): Option<int> {
    match JsRem(earliest, busId)
    case None => None
    case Some(r) => JsRem(busId - r, busId)
  }

  /** The wait for a positive id is the least non-negative number that brings the earliest
      time to a multiple of the id. */
  lemma WaitMeaning(earliest: int, busId: int)
    requires busId > 0
    ensures Wait(earliest, busId).Some?
    ensures 0 <= Wait(earliest, busId).value < busId
    ensures Arrives(earliest, busId, Wait(earliest, busId).value)
    ensures forall w :: 0 <= w < Wait(earliest, busId).value ==> !Arrives(earliest, busId, w)
  {
    var r := JsRem(earliest, busId).value;
    var w := Wait(earliest, busId).value;
    assert busId - r > 0;
    assert Divides(busId, earliest - r);
    assert Divides(busId, busId - r - w);
    DividesSum(busId, busId - r - w, busId);
    DividesSum(busId, earliest - r, -(r + w));
    DividesNegation(busId, r + w);
    assert Divides(busId, earliest + w);
    forall w' | 0 <= w' < w ensures !Arrives(earliest, busId, w') {
      if Arrives(earliest, busId, w') {
        DividesSum(busId, earliest + w, earliest + w');
        assert Divides(busId, w - w');
        SmallMultiple(busId, w - w');
      }
    }
  }

  /** Bus `busId` leaves `w` minutes after `earliest`. */
  predicate Arrives(earliest: int, busId: nat, w: int) {
    Divides(busId, earliest + w)
  }

  /** A positive multiple of d is at least d. */
  lemma SmallMultiple(d: nat, x: int)
    requires d > 0 && Divides(d, x) && x > 0
    ensures x >= d
  {
    DividesQuotient(d, x);
    ProductSign(d, x / d);
  }

  /** The choice of `solvePart1` after the first `n` ids: the best id and its wait, `None`
      while `bestWait` is still `Infinity`. A `NaN` wait never compares below the best. */
  function Best(earliest: int, busIds: seq<int>, n: nat): Option<(int, int)>
    requires n <= |busIds|
  {
    if n == 0 then None
    else
      var prev := Best(earliest, busIds, n - 1);
      var w := Wait(earliest, busIds[n - 1]);
      if w.Some? && (prev.None? || w.value < prev.value.1) then Some((busIds[n - 1], w.value))
      else prev
  }

  /** `solvePart1`: `bestBusId * bestWait`, which is `null * Infinity`, that is `NaN`
      (`None`), when no id gave a number. */
  method SolvePart1(earliest: int, busIds: seq<int>) returns (r: Option<int>)
    ensures r == match Best(earliest, busIds, |busIds|)
                 case None => None
                 case Some(best) => Some(best.0 * best.1)
  {
    var bestBusId: Option<int> := None;
    var bestWait: Option<int> := None;
    for n := 0 to |busIds|
      invariant bestWait.Some? <==> bestBusId.Some?
      invariant Best(earliest, busIds, n) ==
                  if bestWait.None? then None else Some((bestBusId.value, bestWait.value))
    {
      var wait := Wait(earliest, busIds[n]);
      if wait.Some? && (bestWait.None? || wait.value < bestWait.value) {
        bestWait := wait;
        bestBusId := Some(busIds[n]);
      }
    }
    if bestWait.None? {
      return None;
    }
    return Some(bestBusId.value * bestWait.value);
  }

  /** The choice has the least wait of all ids with a numeric wait, it is the first id with
      that wait, and there is a choice exactly when some id is non-zero. */
  lemma {:induction false} BestIsFirstMinimum(earliest: int, busIds: seq<int>, n: nat) returns (i: nat)
    requires n <= |busIds|
    ensures Best(earliest, busIds, n).None? <==> forall j :: 0 <= j < n ==> busIds[j] == 0
    ensures Best(earliest, busIds, n).Some? ==>
              && i < n && Wait(earliest, busIds[i]).Some?
              && Best(earliest, busIds, n).value == (busIds[i], Wait(earliest, busIds[i]).value)
              && (forall j :: 0 <= j < n && Wait(earliest, busIds[j]).Some? ==>
                    Wait(earliest, busIds[i]).value <= Wait(earliest, busIds[j]).value)
              && (forall j :: 0 <= j < i && Wait(earliest, busIds[j]).Some? ==>
                    Wait(earliest, busIds[i]).value < Wait(earliest, busIds[j]).value)
  {
    if n == 0 {
      i := 0;
    } else {
      var i' := BestIsFirstMinimum(earliest, busIds, n - 1);
      var prev := Best(earliest, busIds, n - 1);
      var w := Wait(earliest, busIds[n - 1]);
      if w.Some? && (prev.None? || w.value < prev.value.1) {
        i := n - 1;
      } else {
        i := i';
      }
    }
  }

  /** The published example: leaving at 939, bus 59 is the first to come, after 5 minutes. */
  lemma PublishedPartOne()
    ensures Best(939, [7, 13, 59, 31, 19], 5) == Some((59, 5))
  {
    ExampleWaitsLow();
    ExampleWaitsHigh();
    assert Best(939, [7, 13, 59, 31, 19], 2) == Some((7, 6));
    assert Best(939, [7, 13, 59, 31, 19], 3) == Some((59, 5));
  }

  lemma ExampleWaitsLow()
    ensures Wait(939, 7) == Some(6) && Wait(939, 13) == Some(10) && Wait(939, 19) == Some(11)
  {
    assert JsRem(939, 7) == Some(1) && JsRem(6, 7) == Some(6);
    assert JsRem(939, 13) == Some(3) && JsRem(10, 13) == Some(10);
    assert JsRem(939, 19) == Some(8) && JsRem(11, 19) == Some(11);
  }

  lemma ExampleWaitsHigh()
    ensures Wait(939, 59) == Some(5) && Wait(939, 31) == Some(22)
  {
    assert JsRem(939, 59) == Some(54) && JsRem(5, 59) == Some(5);
    assert JsRem(939, 31) == Some(9) && JsRem(22, 31) == Some(22);
  }

  // ---- part 2 ----

  /** `BigInt(token)` on a run of decimal digits (the empty run is `0n`). Every other token is
      `None`, which is read as the `SyntaxError` of `BigInt`. `BigInt` also accepts a sign,
      surrounding whitespace and `0x`/`0o`/`0b` numerals, which this model does not read. */
  function TokenValue(token: string): Option<nat> {
    if IsDigits(token) then Some(DecimalValue(token)) else None
  }

  /** A slot at which `solvePart2` throws: not `x`, and not a positive id. */
  predicate IsBadToken(token: string) {
    token != "x" && (TokenValue(token).None? || TokenValue(token).value == 0)
  }

  /** The error `solvePart2` throws at a bad slot. */
  function BadTokenError(token: string): string {
    if TokenValue(token).None? then "Cannot convert " + token + " to a BigInt"
    else "Division by zero"
  }

  /** The number of slots before the first bad one. */
  function GoodPrefix(tokens: seq<string>): (n: nat)
    ensures n <= |tokens|
    ensures forall i :: 0 <= i < n ==> !IsBadToken(tokens[i])
    ensures n < |tokens| ==> IsBadToken(tokens[n])
  {
    if |tokens| == 0 || IsBadToken(tokens[0]) then 0 else 1 + GoodPrefix(tokens[1..])
  }

  /** The id of each slot, with 0 for `x` (and for a bad slot). */
  function SlotIds(tokens: seq<string>): (ids: seq<nat>)
    ensures |ids| == |tokens|
    ensures forall i :: 0 <= i < |tokens| && !IsBadToken(tokens[i]) ==>
              (ids[i] == 0 <==> tokens[i] == "x")
  {
    seq(|tokens|, i requires 0 <= i < |tokens| =>
      if TokenValue(tokens[i]).Some? then TokenValue(tokens[i]).value else 0)
  }

  /** Timestamp t meets the first n slots: the bus of each non-`x` slot at offset i
      (id 0 marks an `x`) leaves at t + i. */
  predicate Meets(ids: seq<nat>, t: int, n: nat)
    requires n <= |ids|
  {
    forall i :: 0 <= i < n && ids[i] != 0 ==> Divides(ids[i], t + i)
  }

  /** No timestamp from 0 up to (not including) `time` meets the first n slots. */
  predicate NoneEarlier(ids: seq<nat>, time: int, n: nat)
    requires n <= |ids|
  {
    forall t :: 0 <= t < time ==> !Meets(ids, t, n)
  }

  /** A timestamp meeting more slots meets fewer; so none earlier for fewer slots is none
      earlier for more. */
  lemma NoneEarlierGrows(ids: seq<nat>, n: nat, m: nat, time: int)
    requires n <= m <= |ids| && NoneEarlier(ids, time, n)
    ensures NoneEarlier(ids, time, m)
  {
    forall t | 0 <= t < time ensures !Meets(ids, t, m) {
      if Meets(ids, t, m) {
        assert Meets(ids, t, n);
      }
    }
  }

  /** m is a multiple of every id among the first n slots. */
  predicate CommonMultiple(ids: seq<nat>, n: nat, m: int)
    requires n <= |ids|
  {
    forall i :: 0 <= i < n && ids[i] != 0 ==> Divides(ids[i], m)
  }

  /** For non-negative numbers the lcm is non-negative. */
  lemma LcmNonNegative(a: nat, b: nat)
    ensures Lcm(a, b).Success? ==> Lcm(a, b).value >= 0
  {
    assert Abs(a) == a && Abs(b) == b;
    var g := Gcd(a, b);
    if g != 0 {
      var q := a / g;
      QuotientNonNegative(a, g);
      assert Quot(a, g) == q;
      assert Lcm(a, b) == Success(q * b);
      if q > 0 && b > 0 {
        ProductSign(b, q);
        assert q * b == b * q;
      }
    }
  }

  lemma QuotientNonNegative(a: nat, g: nat)
    requires g > 0
    ensures a / g >= 0
  {
    var q := a / g;
    ProductSign(g, q);
    assert a == g * q + a % g;
  }

  /** `step` after the first n slots: the lcm of their ids, folded from 1. */
  function StepOf(ids: seq<nat>, n: nat): nat
    requires n <= |ids|
  {
    if n == 0 then 1
    else
      var s := StepOf(ids, n - 1);
      if ids[n - 1] == 0 then s
      else
        LcmNonNegative(s, ids[n - 1]);
        match Lcm(s, ids[n - 1])
        case Success(l) => l
        case Failure(_) => s
  }

  /** One more bus id folds into the step as the lcm with it. */
  lemma StepOfNext(ids: seq<nat>, n: nat)
    requires n < |ids| && ids[n] != 0
    ensures Lcm(StepOf(ids, n), ids[n]).Success? && Lcm(StepOf(ids, n), ids[n]).value > 0
    ensures StepOf(ids, n + 1) == Lcm(StepOf(ids, n), ids[n]).value
  {
    StepMultiples(ids, n);
    LcmPositive(StepOf(ids, n), ids[n]);
  }

  /** The step is positive and its multiples are exactly the common multiples of the ids
      seen. */
  lemma {:induction false} StepMultiples(ids: seq<nat>, n: nat)
    requires n <= |ids|
    ensures StepOf(ids, n) > 0
    ensures forall m :: Divides(StepOf(ids, n), m) <==> CommonMultiple(ids, n, m)
  {
    if n > 0 {
      StepMultiples(ids, n - 1);
      var s := StepOf(ids, n - 1);
      if ids[n - 1] != 0 {
        var id := ids[n - 1];
        LcmMeaning(s, id);
        var l := Lcm(s, id).value;
        forall m ensures Divides(l, m) <==> CommonMultiple(ids, n, m) {
          if Divides(l, m) {
            DividesTransitive(s, l, m);
            DividesTransitive(id, l, m);
          }
        }
      }
    }
  }

  lemma DividesTransitive(a: nat, b: nat, c: int)
    requires Divides(a, b) && Divides(b, c)
    ensures Divides(a, c)
  {
    if b > 0 {
      DividesQuotient(b, c);
      DividesProduct(a, b, c / b);
    }
  }

  /** Once t0 meets the first n slots, the timestamps that do are those a multiple of the
      step away from it: adding the step keeps every earlier slot met. */
  lemma MeetsModStep(ids: seq<nat>, n: nat, t0: int, t: int)
    requires n <= |ids| && Meets(ids, t0, n)
    ensures Meets(ids, t, n) <==> Divides(StepOf(ids, n), t - t0)
  {
    StepMultiples(ids, n);
    forall i | 0 <= i < n && ids[i] != 0
      ensures Divides(ids[i], t + i) <==> Divides(ids[i], t - t0)
    {
      ShiftDivides(ids[i], t + i, t0 + i);
    }
  }

  /** When d divides b, it divides a exactly when it divides a - b. */
  lemma ShiftDivides(d: nat, a: int, b: int)
    requires Divides(d, b)
    ensures Divides(d, a) <==> Divides(d, a - b)
  {
    if Divides(d, a) {
      DividesSum(d, a, b);
    }
    if Divides(d, a - b) {
      DividesSum(d, a - b, b);
    }
  }

  /** The `while` of `solvePart2`: from the least timestamp meeting the first k slots, step
      until slot k, a bus with id `busId`, is met too. */
  method Align(ghost ids: seq<nat>, k: nat, busId: nat, time: nat, step: nat, ghost target: nat)
    returns (time': nat)
    requires k < |ids| && busId == ids[k] && busId != 0
    requires step == StepOf(ids, k) && Meets(ids, time, k) && NoneEarlier(ids, time, k)
    requires Meets(ids, target, k + 1) && time <= target
    ensures Meets(ids, time', k + 1) && time' <= target && NoneEarlier(ids, time', k + 1)
  {
    NoneEarlierGrows(ids, k, k + 1, time);
    StepMultiples(ids, k);
    time' := time;
    while (time' + k) % busId != 0
      invariant time <= time' <= target && Meets(ids, time', k)
      invariant NoneEarlier(ids, time', k + 1)
      decreases target - time'
    {
      AlignStep(ids, k, time', step, target);
      time' := time' + step;
    }
  }

  /** A bus slot: align the time with it, then fold its id into the step. */
  method PlaceBus(ghost ids: seq<nat>, k: nat, busId: nat, time: nat, step: nat, ghost target: nat)
    returns (time': nat, step': nat)
    requires k < |ids| && busId == ids[k] && busId != 0
    requires step == StepOf(ids, k) && Meets(ids, time, k) && NoneEarlier(ids, time, k)
    requires Meets(ids, target, k + 1) && time <= target
    ensures Meets(ids, time', k + 1) && time' <= target && NoneEarlier(ids, time', k + 1)
    ensures step' == StepOf(ids, k + 1)
  {
    time' := Align(ids, k, busId, time, step, target);
    var l := LcmBigInt(step, busId);
    StepOfNext(ids, k);
    step' := l.value;
  }

  /** One turn of the `while`: when `time` misses slot k, the next `step - 1` timestamps
      after it miss the first k slots, and `time + step` still meets them. */
  lemma AlignStep(ids: seq<nat>, k: nat, time: int, step: nat, target: int)
    requires k < |ids| && ids[k] != 0 && !Divides(ids[k], time + k)
    requires step == StepOf(ids, k) && Meets(ids, time, k) && NoneEarlier(ids, time, k + 1)
    requires Meets(ids, target, k + 1) && time <= target
    ensures Meets(ids, time + step, k) && time + step <= target
    ensures NoneEarlier(ids, time + step, k + 1)
  {
    StepMultiples(ids, k);
    MeetsModStep(ids, k, time, target);
    SmallMultiple(step, target - time);
    MultipleMod(step, 1);
    MeetsModStep(ids, k, time, time + step);
    var k1 := k + 1;
    forall t | 0 <= t < time + step ensures !Meets(ids, t, k1) {
      if time < t && Meets(ids, t, k) {
        MeetsModStep(ids, k, time, t);
        SmallMultiple(step, t - time);
      }
    }
  }

  /** An `x` slot adds no condition, though it still takes up an offset. */
  lemma SkipSlot(ids: seq<nat>, k: nat, time: int)
    requires k < |ids| && ids[k] == 0
    ensures forall t :: Meets(ids, t, k + 1) <==> Meets(ids, t, k)
    ensures NoneEarlier(ids, time, k + 1) <==> NoneEarlier(ids, time, k)
  {
    var k1 := k + 1;
    forall t ensures Meets(ids, t, k1) <==> Meets(ids, t, k) {
      if Meets(ids, t, k) {
        assert forall i :: 0 <= i < k1 && ids[i] != 0 ==> i < k;
      }
    }
  }

  /** `solvePart2`: the least non-negative timestamp at which every listed bus leaves at
      its offset, as decimal text; the error of the first bad slot otherwise. The loop of
      the source runs forever when the slots before the first bad one cannot all be met,
      so that is required. */
  method SolvePart2(tokens: seq<string>) returns (r: Result<string>)
    requires exists t: nat :: Meets(SlotIds(tokens), t, GoodPrefix(tokens))
    ensures r.Failure? <==> GoodPrefix(tokens) < |tokens|
    ensures r.Failure? ==> r.error == BadTokenError(tokens[GoodPrefix(tokens)])
    ensures r.Success? ==> IsDigits(r.value)
    ensures r.Success? ==> Meets(SlotIds(tokens), DecimalValue(r.value), |tokens|)
    ensures r.Success? ==> NoneEarlier(SlotIds(tokens), DecimalValue(r.value), |tokens|)
  {
    ghost var ids := SlotIds(tokens);
    ghost var target: nat :| Meets(ids, target, GoodPrefix(tokens));
    var time: nat := 0;
    var step: nat := 1;
    var offset := 0;
    while offset < |tokens|
      invariant offset <= GoodPrefix(tokens)
      invariant step == StepOf(ids, offset)
      invariant Meets(ids, time, offset) && time <= target && NoneEarlier(ids, time, offset)
    {
      var token := tokens[offset];
      if token != "x" {
        if !IsDigits(token) {
          assert IsBadToken(tokens[offset]);
          assert GoodPrefix(tokens) == offset;
          return Failure("Cannot convert " + token + " to a BigInt");
        }
        var busId := DecimalValue(token);
        if busId == 0 {
          assert IsBadToken(tokens[offset]);
          assert GoodPrefix(tokens) == offset;
          return Failure("Division by zero");
        }
        assert busId == ids[offset] != 0;
        time, step := PlaceBus(ids, offset, busId, time, step, target);
      } else {
        SkipSlot(ids, offset, time);
      }
      offset := offset + 1;
    }
    DecimalRoundTrip(time);
    return Success(Decimal(time));
  }
}
