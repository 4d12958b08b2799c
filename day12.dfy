/** Rain Risk: navigation instructions (an action letter and a number) move a ship that has
    a heading (part 1) or that follows a waypoint rotating around it (part 2); each answer
    is the Manhattan distance of the ship from its start. */
module Navigation {
  import opened Wrappers
  import opened Text

  /** `{ action: line[0], value: Number(line.slice(1)) }`; the action of an empty line is
      `undefined`. */
  datatype Instruction = Instruction(action: Option<char>, value: int)

  // ---- parsing ----

  /** The argument texts whose `Number` value is an integer: empty (which gives 0), decimal
      digits, or a sign followed by decimal digits. */
  predicate IsIntegerText(s: string) {
    IsDigits(s) || (|s| >= 2 && (s[0] == '-' || s[0] == '+') && IsDigits(s[1..]))
  }

  function IntegerValue(s: string): int
    requires IsIntegerText(s)
  {
    if IsDigits(s) then DecimalValue(s) else if s[0] == '-' then -(DecimalValue(s[1..]) as int) else DecimalValue(s[1..])
  }

  /** `line.slice(1)`, which is empty for the empty line. */
  function Argument(line: string): string {
    if line == [] then [] else line[1..]
  }

  /** `parseInstruction`. */
  function ParseInstruction(line: string): Instruction
    requires IsIntegerText(Argument(line))
  {
    Instruction(if line == [] then None else Some(line[0]), IntegerValue(Argument(line)))
  }

  /** The line an instruction is written as: the action letter and the value in decimal. */
  function FormatInstruction(instruction: Instruction): string
    requires instruction.action.Some?
  {
    var v := instruction.value;
    [instruction.action.value] + (if v < 0 then "-" + Decimal(-v) else Decimal(v))
  }

  /** Parsing the written form of an instruction gives the instruction back. */
  lemma ParseFormat(instruction: Instruction)
    requires instruction.action.Some?
    ensures IsIntegerText(Argument(FormatInstruction(instruction)))
    ensures ParseInstruction(FormatInstruction(instruction)) == instruction
  {
    var v := instruction.value;
    var line := FormatInstruction(instruction);
    if v < 0 {
      DecimalRoundTrip(-v);
      assert Argument(line) == "-" + Decimal(-v);
      assert Argument(line)[1..] == Decimal(-v);
      assert Argument(line)[0] == '-' && !IsDigit('-');
    } else {
      DecimalRoundTrip(v);
      assert Argument(line) == Decimal(v);
    }
  }

  // ---- geometry ----

  /** `manhattanDistance`. */
  function Manhattan(x: int, y: int): (d: nat)
    ensures d == 0 <==> x == 0 && y == 0
  {
    (if x < 0 then -x else x) + (if y < 0 then -y else y)
  }

  /** `rotateLeft90`: a quarter turn counter-clockwise about the origin. */
  function RotateLeft90(x: int, y: int): (p: (int, int))
    ensures Manhattan(p.0, p.1) == Manhattan(x, y)
  {
    (-y, x)
  }

  /** `rotateRight90`: a quarter turn clockwise about the origin, undone by a quarter turn
      counter-clockwise. */
  function RotateRight90(x: int, y: int): (p: (int, int))
    ensures Manhattan(p.0, p.1) == Manhattan(x, y)
    ensures RotateLeft90(p.0, p.1) == (x, y)
  {
    (y, -x)
  }

  /** A quarter turn clockwise undoes one counter-clockwise. */
  lemma LeftThenRight(x: int, y: int)
    ensures var p := RotateLeft90(x, y); RotateRight90(p.0, p.1) == (x, y)
  {
  }

  /** k quarter turns, clockwise when `clockwise` holds. */
  function QuarterTurns(clockwise: bool, k: nat, p: (int, int)): (q: (int, int))
    ensures Manhattan(q.0, q.1) == Manhattan(p.0, p.1)
  {
    if k == 0 then p
    else
      var p' := QuarterTurns(clockwise, k - 1, p);
      if clockwise then RotateRight90(p'.0, p'.1) else RotateLeft90(p'.0, p'.1)
  }

  /** The quarter turns in closed form: only k modulo 4 matters. */
  lemma {:induction false} QuarterTurnsClosedForm(clockwise: bool, k: nat, p: (int, int))
    ensures QuarterTurns(clockwise, k, p) ==
            if k % 4 == 0 then p
            else if k % 4 == 2 then (-p.0, -p.1)
            else if (k % 4 == 1) == clockwise then (p.1, -p.0)
            else (-p.1, p.0)
  {
    if k > 0 {
      QuarterTurnsClosedForm(clockwise, k - 1, p);
    }
  }

  /** Four quarter turns are no turn. */
  lemma QuarterTurnsPeriod(clockwise: bool, k: nat, p: (int, int))
    ensures QuarterTurns(clockwise, k + 4, p) == QuarterTurns(clockwise, k, p)
  {
    var k4 := k + 4;
    assert k4 % 4 == k % 4;
    QuarterTurnsClosedForm(clockwise, k4, p);
    QuarterTurnsClosedForm(clockwise, k, p);
  }

  /** k quarter turns one way are 4 - k (modulo 4) quarter turns the other way. */
  lemma QuarterTurnsOtherWay(clockwise: bool, k: nat, p: (int, int))
    ensures QuarterTurns(!clockwise, (4 - k % 4) % 4, p) == QuarterTurns(clockwise, k, p)
  {
    var k' := (4 - k % 4) % 4;
    QuarterTurnsClosedForm(clockwise, k, p);
    QuarterTurnsClosedForm(!clockwise, k', p);
    assert k' % 4 == k';
    assert k % 4 == 0 || k % 4 == 1 || k % 4 == 2 || k % 4 == 3;
  }

  /** Rotating the waypoint right by some degrees and then left by the same degrees puts it
      back where it was. */
  lemma RightThenLeftRestores(degrees: int, p: (int, int))
    ensures QuarterTurns(false, Turns(degrees), QuarterTurns(true, Turns(degrees), p)) == p
  {
    QuarterTurnsClosedForm(true, Turns(degrees), p);
    QuarterTurnsClosedForm(false, Turns(degrees), QuarterTurns(true, Turns(degrees), p));
  }

  /** How often the loop of `rotateWaypoint` runs: `turns = (degrees / 90) % 4` is a
      quotient in floating point and the loop runs once for every integer `i` below it. For
      positive degrees that is the ceiling of (degrees mod 360) / 90; otherwise the
      remainder is not positive and the loop does not run. */
  function Turns(degrees: int): (turns: nat)
    ensures turns <= 4
    ensures degrees <= 0 ==> turns == 0
    ensures degrees > 0 ==> 90 * (turns - 1) < degrees % 360 <= 90 * turns || (turns == 0 && degrees % 360 == 0)
    ensures degrees >= 0 && degrees % 90 == 0 ==> turns == (degrees / 90) % 4
  {
    if degrees <= 0 then 0
    else
      CeilingQuarter(degrees % 360);
      WholeQuarters(degrees);
      ((degrees % 360) + 89) / 90
  }

  /** The ceiling of m / 90 for an angle in [0, 360). */
  lemma CeilingQuarter(m: int)
    requires 0 <= m < 360
    ensures var t := (m + 89) / 90;
            && 0 <= t <= 4
            && (m == 0 <==> t == 0)
            && (m > 0 ==> 90 * (t - 1) < m <= 90 * t)
            && (m % 90 == 0 ==> t == m / 90)
  {
  }

  /** For a multiple of 90, the quarter turns modulo 4 are the quarter turns of the angle
      modulo 360. */
  lemma WholeQuarters(d: int)
    requires d >= 0
    ensures d % 90 == 0 ==> (d / 90) % 4 == (d % 360) / 90 && (d % 360) % 90 == 0
  {
    if d % 90 == 0 {
      var q := d / 90;
      var a, b := q / 4, q % 4;
      assert q == 4 * a + b && 0 <= b < 4;
      assert d == 360 * a + 90 * b;
      assert d / 360 == a && d % 360 == 90 * b;
      assert (d % 360) / 90 == b;
    }
  }

  /** `rotateWaypoint`: `Turns(degrees)` quarter turns, clockwise for `R`. */
  method RotateWaypoint(wx: int, wy: int, direction: char, degrees: int) returns (x: int, y: int)
    ensures (x, y) == QuarterTurns(direction == 'R', Turns(degrees), (wx, wy))
    ensures Manhattan(x, y) == Manhattan(wx, wy)
  {
    var turns := if degrees <= 0 then 0 else ((degrees % 360) + 89) / 90;
    x, y := wx, wy;
    for i := 0 to turns
      invariant (x, y) == QuarterTurns(direction == 'R', i, (wx, wy))
    {
      if direction == 'R' {
        var p := RotateRight90(x, y);
        x, y := p.0, p.1;
      } else {
        var p := RotateLeft90(x, y);
        x, y := p.0, p.1;
      }
    }
  }

  /** The `Unknown action` error, which prints `undefined` for the action of an empty line. */
  function UnknownAction(action: Option<char>): string {
    "Unknown action: " + (if action.Some? then [action.value] else "undefined")
  }

  // ---- part 1: the ship turns and moves ----

  /** `a % 4` in JavaScript, which truncates: the remainder takes the sign of the dividend
      and agrees with the mathematical remainder modulo 4. */
  function JsRem4(a: int): (r: int)
    ensures -4 < r < 4
    ensures a >= 0 ==> r >= 0
    ensures a <= 0 ==> r <= 0
    ensures r % 4 == a % 4
  {
    if a >= 0 then a % 4 else -((-a) % 4)
  }

  const Headings: seq<char> := ['E', 'S', 'W', 'N']

  datatype Ship = Ship(headingIndex: int, x: int, y: int)

  /** Part 1 divides turn values by 90 exactly only when they are multiples of 90. */
  predicate QuarterTurnValues(instructions: seq<Instruction>) {
    forall k :: 0 <= k < |instructions| && instructions[k].action in {Some('L'), Some('R')} ==> instructions[k].value % 90 == 0
  }

  /** The body of the loop of `solvePart1` for one instruction. A heading index outside
      0..3 reads `undefined` from `headings`, which the `F` branch treats as west. */
  function PartOneStep(ship: Ship, instruction: Instruction): Result<Ship>
    requires instruction.action in {Some('L'), Some('R')} ==> instruction.value % 90 == 0
  {
    var v := instruction.value;
    match instruction.action
    case Some('N') => Success(ship.(y := ship.y + v))
    case Some('S') => Success(ship.(y := ship.y - v))
    case Some('E') => Success(ship.(x := ship.x + v))
    case Some('W') => Success(ship.(x := ship.x - v))
    case Some('L') => Success(ship.(headingIndex := JsRem4(ship.headingIndex - v / 90 + 4)))
    case Some('R') => Success(ship.(headingIndex := JsRem4(ship.headingIndex + v / 90)))
    case Some('F') =>
      var heading := if 0 <= ship.headingIndex < 4 then Some(Headings[ship.headingIndex]) else None;
      if heading == Some('N') then Success(ship.(y := ship.y + v))
      else if heading == Some('S') then Success(ship.(y := ship.y - v))
      else if heading == Some('E') then Success(ship.(x := ship.x + v))
      else Success(ship.(x := ship.x - v))
    case _ => Failure(UnknownAction(instruction.action))
  }

  /** The ship after the instructions, starting at the origin facing east. */
  function PartOneRun(instructions: seq<Instruction>): Result<Ship>
    requires QuarterTurnValues(instructions)
  {
    if instructions == [] then Success(Ship(0, 0, 0))
    else
      var n := |instructions| - 1;
      assert QuarterTurnValues(instructions[..n]);
      var ship :- PartOneRun(instructions[..n]);
      PartOneStep(ship, instructions[n])
  }

  /** The run over one more instruction is one more step. */
  lemma PartOneRunExtend(instructions: seq<Instruction>, k: nat)
    requires QuarterTurnValues(instructions) && k < |instructions|
    ensures QuarterTurnValues(instructions[..k]) && QuarterTurnValues(instructions[..k + 1])
    ensures PartOneRun(instructions[..k + 1]) == (var ship :- PartOneRun(instructions[..k]); PartOneStep(ship, instructions[k]))
  {
    assert instructions[..k + 1][..k] == instructions[..k];
  }

  /** Once an instruction fails, the run fails with its error. */
  lemma {:induction false} PartOneFailureStays(instructions: seq<Instruction>, k: nat)
    requires QuarterTurnValues(instructions) && k <= |instructions|
    requires PartOneRun(instructions[..k]).Failure?
    ensures PartOneRun(instructions) == PartOneRun(instructions[..k])
    decreases |instructions| - k
  {
    if k < |instructions| {
      var n := |instructions| - 1;
      assert forall j :: 0 <= j < n ==> instructions[..n][j] == instructions[j];
      assert instructions[..n][..k] == instructions[..k];
      PartOneFailureStays(instructions[..n], k);
    } else {
      assert instructions[..k] == instructions;
    }
  }

  /** The body of the loop of `solvePart1`: the new heading index and position, or the
      `Unknown action` error. */
  method PartOneInstruction(headingIndex: int, shipX: int, shipY: int, action: Option<char>, value: int)
    returns (r: Result<Ship>)
    requires action in {Some('L'), Some('R')} ==> value % 90 == 0
    ensures r == PartOneStep(Ship(headingIndex, shipX, shipY), Instruction(action, value))
  {
    var h, x, y := headingIndex, shipX, shipY;
    if action == Some('N') {
      y := y + value;
    } else if action == Some('S') {
      y := y - value;
    } else if action == Some('E') {
      x := x + value;
    } else if action == Some('W') {
      x := x - value;
    } else if action == Some('L') {
      h := JsRem4(h - value / 90 + 4);
    } else if action == Some('R') {
      h := JsRem4(h + value / 90);
    } else if action == Some('F') {
      var heading := if 0 <= h < 4 then Some(Headings[h]) else None;
      if heading == Some('N') {
        y := y + value;
      } else if heading == Some('S') {
        y := y - value;
      } else if heading == Some('E') {
        x := x + value;
      } else {
        x := x - value;
      }
    } else {
      return Failure(UnknownAction(action));
    }
    return Success(Ship(h, x, y));
  }

  /** `solvePart1`. */
  method SolvePart1(instructions: seq<Instruction>) returns (r: Result<nat>)
    requires QuarterTurnValues(instructions)
    ensures r.Success? <==> PartOneRun(instructions).Success?
    ensures r.Success? ==> r.value == Manhattan(PartOneRun(instructions).value.x, PartOneRun(instructions).value.y)
    ensures r.Failure? ==> r.error == PartOneRun(instructions).error
  {
    var headingIndex := 0;
    var shipX, shipY := 0, 0;
    for k := 0 to |instructions|
      invariant QuarterTurnValues(instructions[..k])
      invariant PartOneRun(instructions[..k]) == Success(Ship(headingIndex, shipX, shipY))
    {
      PartOneRunExtend(instructions, k);
      var next := PartOneInstruction(headingIndex, shipX, shipY, instructions[k].action, instructions[k].value);
      if next.Failure? {
        PartOneFailureStays(instructions, k + 1);
        return Failure(next.error);
      }
      headingIndex, shipX, shipY := next.value.headingIndex, next.value.x, next.value.y;
    }
    assert instructions[..|instructions|] == instructions;
    return Success(Manhattan(shipX, shipY));
  }

  /** Turns of at most a full circle, in quarter turns. */
  predicate SmallQuarterTurns(instructions: seq<Instruction>) {
    forall k :: 0 <= k < |instructions| && instructions[k].action in {Some('L'), Some('R')} ==>
      instructions[k].value % 90 == 0 && 0 <= instructions[k].value <= 360
  }

  /** The quarter turns of one instruction: positive to the right, negative to the left. */
  function QuarterTurnsOf(instruction: Instruction): int {
    if instruction.action == Some('R') then instruction.value / 90
    else if instruction.action == Some('L') then -(instruction.value / 90)
    else 0
  }

  /** The quarter turns to the right less those to the left. */
  function NetQuarterTurns(instructions: seq<Instruction>): int {
    if instructions == [] then 0
    else NetQuarterTurns(instructions[..|instructions| - 1]) + QuarterTurnsOf(instructions[|instructions| - 1])
  }

  /** One instruction with a turn of at most a full circle keeps the heading index the net
      quarter turns modulo 4. */
  lemma HeadingStep(ship: Ship, instruction: Instruction, net: int)
    requires instruction.action in {Some('L'), Some('R')} ==> instruction.value % 90 == 0 && 0 <= instruction.value <= 360
    requires 0 <= ship.headingIndex < 4 && ship.headingIndex == net % 4
    ensures PartOneStep(ship, instruction).Success? ==>
              var h := PartOneStep(ship, instruction).value.headingIndex;
              0 <= h < 4 && h == (net + QuarterTurnsOf(instruction)) % 4
  {
    var h, t := ship.headingIndex, instruction.value / 90;
    if instruction.action == Some('L') {
      assert 0 <= t <= 4;
      ModStep(net, h, -t);
      assert (h - t + 4) % 4 == (h - t) % 4;
    } else if instruction.action == Some('R') {
      assert 0 <= t <= 4;
      ModStep(net, h, t);
    }
  }

  /** With turns of at most a full circle, the heading index stays in 0..3 and is the net
      number of quarter turns modulo 4, so `F` moves the way the ship faces. */
  lemma {:induction false} HeadingIsNetTurns(instructions: seq<Instruction>)
    requires QuarterTurnValues(instructions) && SmallQuarterTurns(instructions)
    ensures PartOneRun(instructions).Success? ==>
              var h := PartOneRun(instructions).value.headingIndex;
              0 <= h < 4 && h == NetQuarterTurns(instructions) % 4
  {
    if instructions != [] {
      var n := |instructions| - 1;
      assert forall k :: 0 <= k < n ==> instructions[..n][k] == instructions[k];
      HeadingIsNetTurns(instructions[..n]);
      if PartOneRun(instructions[..n]).Success? {
        HeadingStep(PartOneRun(instructions[..n]).value, instructions[n], NetQuarterTurns(instructions[..n]));
      }
    }
  }

  lemma ModStep(a: int, h: int, t: int)
    requires h == a % 4
    ensures (h + t) % 4 == (a + t) % 4
  {
    var q := a / 4;
    assert a == 4 * q + h;
    assert a + t == 4 * q + (h + t);
  }

  /** A left turn by more than a full circle from east leaves the heading index at -1, so
      `headings` gives `undefined` and `F` moves west instead of north. */
  lemma LongLeftTurn()
    ensures PartOneRun([Instruction(Some('L'), 450), Instruction(Some('F'), 10)]) == Success(Ship(-1, -10, 0))
  {
    var instructions := [Instruction(Some('L'), 450), Instruction(Some('F'), 10)];
    assert instructions[..1] == [Instruction(Some('L'), 450)];
    assert instructions[..1][..0] == [];
  }

  // ---- part 2: the waypoint ----

  datatype Navigator = Navigator(shipX: int, shipY: int, waypointX: int, waypointY: int)

  /** The body of the loop of `solvePart2` for one instruction. */
  function PartTwoStep(nav: Navigator, instruction: Instruction): Result<Navigator> {
    var v := instruction.value;
    match instruction.action
    case Some('N') => Success(nav.(waypointY := nav.waypointY + v))
    case Some('S') => Success(nav.(waypointY := nav.waypointY - v))
    case Some('E') => Success(nav.(waypointX := nav.waypointX + v))
    case Some('W') => Success(nav.(waypointX := nav.waypointX - v))
    case Some('L') =>
      var w := QuarterTurns(false, Turns(v), (nav.waypointX, nav.waypointY));
      Success(nav.(waypointX := w.0, waypointY := w.1))
    case Some('R') =>
      var w := QuarterTurns(true, Turns(v), (nav.waypointX, nav.waypointY));
      Success(nav.(waypointX := w.0, waypointY := w.1))
    case Some('F') => Success(nav.(shipX := nav.shipX + nav.waypointX * v, shipY := nav.shipY + nav.waypointY * v))
    case _ => Failure(UnknownAction(instruction.action))
  }

  /** The ship and waypoint after the instructions; the waypoint starts 10 east, 1 north. */
  function PartTwoRun(instructions: seq<Instruction>): Result<Navigator> {
    if instructions == [] then Success(Navigator(0, 0, 10, 1))
    else
      var nav :- PartTwoRun(instructions[..|instructions| - 1]);
      PartTwoStep(nav, instructions[|instructions| - 1])
  }

  /** Once an instruction fails, the run fails with its error. */
  lemma {:induction false} PartTwoFailureStays(instructions: seq<Instruction>, k: nat)
    requires k <= |instructions| && PartTwoRun(instructions[..k]).Failure?
    ensures PartTwoRun(instructions) == PartTwoRun(instructions[..k])
    decreases |instructions| - k
  {
    if k < |instructions| {
      var n := |instructions| - 1;
      assert instructions[..n][..k] == instructions[..k];
      PartTwoFailureStays(instructions[..n], k);
    } else {
      assert instructions[..k] == instructions;
    }
  }

  /** `solvePart2`. */
  method SolvePart2(instructions: seq<Instruction>) returns (r: Result<nat>)
    ensures r.Success? <==> PartTwoRun(instructions).Success?
    ensures r.Success? ==> r.value == Manhattan(PartTwoRun(instructions).value.shipX, PartTwoRun(instructions).value.shipY)
    ensures r.Failure? ==> r.error == PartTwoRun(instructions).error
  {
    var shipX, shipY := 0, 0;
    var waypointX, waypointY := 10, 1;
    for k := 0 to |instructions|
      invariant PartTwoRun(instructions[..k]) == Success(Navigator(shipX, shipY, waypointX, waypointY))
    {
      assert instructions[..k + 1][..k] == instructions[..k];
      var action, value := instructions[k].action, instructions[k].value;
      if action == Some('N') {
        waypointY := waypointY + value;
      } else if action == Some('S') {
        waypointY := waypointY - value;
      } else if action == Some('E') {
        waypointX := waypointX + value;
      } else if action == Some('W') {
        waypointX := waypointX - value;
      } else if action == Some('L') || action == Some('R') {
        waypointX, waypointY := RotateWaypoint(waypointX, waypointY, action.value, value);
      } else if action == Some('F') {
        shipX := shipX + waypointX * value;
        shipY := shipY + waypointY * value;
      } else {
        PartTwoFailureStays(instructions, k + 1);
        return Failure(UnknownAction(action));
      }
    }
    assert instructions[..|instructions|] == instructions;
    return Success(Manhattan(shipX, shipY));
  }

  /** Only N, S, E and W move the waypoint relative to the ship: under turns and forward
      moves alone it stays at distance 11 from the ship. */
  lemma {:induction false} WaypointDistanceKept(instructions: seq<Instruction>)
    requires forall k :: 0 <= k < |instructions| ==> instructions[k].action in {Some('L'), Some('R'), Some('F')}
    ensures PartTwoRun(instructions).Success?
    ensures Manhattan(PartTwoRun(instructions).value.waypointX, PartTwoRun(instructions).value.waypointY) == 11
  {
    if instructions != [] {
      var n := |instructions| - 1;
      assert forall k :: 0 <= k < n ==> instructions[..n][k] == instructions[k];
      WaypointDistanceKept(instructions[..n]);
    }
  }

  /** The published example `F10 N3 F7 R90 F11`: 25 for part 1 and 286 for part 2. */
  lemma PublishedExample()
    ensures var instructions := [Instruction(Some('F'), 10), Instruction(Some('N'), 3), Instruction(Some('F'), 7),
                                 Instruction(Some('R'), 90), Instruction(Some('F'), 11)];
            && QuarterTurnValues(instructions)
            && PartOneRun(instructions) == Success(Ship(1, 17, -8)) && Manhattan(17, -8) == 25
            && PartTwoRun(instructions) == Success(Navigator(214, -72, 4, -10)) && Manhattan(214, -72) == 286
  {
    ExamplePrefixes();
    ExamplePartOne();
    ExamplePartTwo();
  }

  lemma ExamplePrefixes()
    ensures var instructions := [Instruction(Some('F'), 10), Instruction(Some('N'), 3), Instruction(Some('F'), 7),
                                 Instruction(Some('R'), 90), Instruction(Some('F'), 11)];
            && instructions[..4] == [Instruction(Some('F'), 10), Instruction(Some('N'), 3), Instruction(Some('F'), 7),
                                     Instruction(Some('R'), 90)]
            && instructions[..4][..3] == [Instruction(Some('F'), 10), Instruction(Some('N'), 3), Instruction(Some('F'), 7)]
            && instructions[..4][..3][..2] == [Instruction(Some('F'), 10), Instruction(Some('N'), 3)]
            && instructions[..4][..3][..2][..1] == [Instruction(Some('F'), 10)]
            && instructions[..4][..3][..2][..1][..0] == []
  {
  }

  lemma ExamplePartOne()
    ensures var instructions := [Instruction(Some('F'), 10), Instruction(Some('N'), 3), Instruction(Some('F'), 7),
                                 Instruction(Some('R'), 90), Instruction(Some('F'), 11)];
            PartOneRun(instructions) == Success(Ship(1, 17, -8))
  {
    ExamplePrefixes();
    var instructions := [Instruction(Some('F'), 10), Instruction(Some('N'), 3), Instruction(Some('F'), 7),
                         Instruction(Some('R'), 90), Instruction(Some('F'), 11)];
    assert PartOneRun(instructions[..4][..3][..2][..1]) == Success(Ship(0, 10, 0));
    assert PartOneRun(instructions[..4][..3][..2]) == Success(Ship(0, 10, 3));
    assert PartOneRun(instructions[..4][..3]) == Success(Ship(0, 17, 3));
    assert PartOneRun(instructions[..4]) == Success(Ship(1, 17, 3));
  }

  lemma ExamplePartTwo()
    ensures var instructions := [Instruction(Some('F'), 10), Instruction(Some('N'), 3), Instruction(Some('F'), 7),
                                 Instruction(Some('R'), 90), Instruction(Some('F'), 11)];
            PartTwoRun(instructions) == Success(Navigator(214, -72, 4, -10))
  {
    ExamplePrefixes();
    var instructions := [Instruction(Some('F'), 10), Instruction(Some('N'), 3), Instruction(Some('F'), 7),
                         Instruction(Some('R'), 90), Instruction(Some('F'), 11)];
    assert PartTwoRun(instructions[..4][..3][..2][..1]) == Success(Navigator(100, 10, 10, 1));
    assert PartTwoRun(instructions[..4][..3][..2]) == Success(Navigator(100, 10, 10, 4));
    assert PartTwoRun(instructions[..4][..3]) == Success(Navigator(170, 38, 10, 4));
    assert Turns(90) == 1 && QuarterTurns(true, 1, (10, 4)) == (4, -10);
    assert PartTwoRun(instructions[..4]) == Success(Navigator(170, 38, 4, -10));
  }
}
