/** Seating System: the seats of a floor plan (every cell but `.`) are numbered in row-major
    order, each gets a neighbour list (the adjacent seats, or the first seat visible in each of
    the eight directions), and a synchronous rule updates the seat states until a round
    changes nothing. */
module Seating {
  import opened Wrappers
  import opened Seqs

  /** A grid is its rows; `line.split("")` already is the row as a sequence of characters. */
  type Grid = seq<string>

  type Pos = (nat, nat)

  /** The eight neighbour offsets (row, column), in the order the neighbour lists use them. */
  const Directions: seq<(int, int)> := [(-1, -1), (-1, 0), (-1, 1), (0, -1), (0, 1), (1, -1), (1, 0), (1, 1)]

  // ---- the seat index ----

  /** The seats of row r left of column c, from left to right. */
  function RowSeats(grid: Grid, r: nat, c: nat): seq<Pos>
    requires r < |grid| && c <= |grid[r]|
  {
    if c == 0 then [] else RowSeats(grid, r, c - 1) + (if grid[r][c - 1] != '.' then [(r, c - 1)] else [])
  }

  /** The seats of the rows above row r, row by row. */
  function SeatsAbove(grid: Grid, r: nat): seq<Pos>
    requires r <= |grid|
  {
    if r == 0 then [] else SeatsAbove(grid, r - 1) + RowSeats(grid, r - 1, |grid[r - 1]|)
  }

  function SeatCells(grid: Grid): seq<Pos> {
    SeatsAbove(grid, |grid|)
  }

  predicate IsSeat(grid: Grid, p: Pos) {
    p.0 < |grid| && p.1 < |grid[p.0]| && grid[p.0][p.1] != '.'
  }

  /** Row-major order. */
  predicate Before(p: Pos, q: Pos) {
    p.0 < q.0 || (p.0 == q.0 && p.1 < q.1)
  }

  predicate RowMajor(ps: seq<Pos>) {
    forall i, j :: 0 <= i < j < |ps| ==> Before(ps[i], ps[j])
  }

  lemma {:induction false} RowSeatsMeaning(grid: Grid, r: nat, c: nat)
    requires r < |grid| && c <= |grid[r]|
    ensures forall p :: p in RowSeats(grid, r, c) <==> p.0 == r && p.1 < c && IsSeat(grid, p)
    ensures RowMajor(RowSeats(grid, r, c))
  {
    if c > 0 {
      RowSeatsMeaning(grid, r, c - 1);
    }
  }

  lemma {:induction false} SeatsAboveMeaning(grid: Grid, r: nat)
    requires r <= |grid|
    ensures forall p :: p in SeatsAbove(grid, r) <==> p.0 < r && IsSeat(grid, p)
    ensures RowMajor(SeatsAbove(grid, r))
  {
    if r > 0 {
      SeatsAboveMeaning(grid, r - 1);
      RowSeatsMeaning(grid, r - 1, |grid[r - 1]|);
      var a, b := SeatsAbove(grid, r - 1), RowSeats(grid, r - 1, |grid[r - 1]|);
      forall i, j | 0 <= i < j < |a + b| ensures Before((a + b)[i], (a + b)[j]) {
        if j < |a| {
          assert (a + b)[i] == a[i] && (a + b)[j] == a[j];
        } else if i >= |a| {
          assert (a + b)[i] == b[i - |a|] && (a + b)[j] == b[j - |a|];
        } else {
          assert (a + b)[i] == a[i] && (a + b)[j] == b[j - |a|];
          assert a[i] in a && b[j - |a|] in b;
        }
      }
    }
  }

  /** The seats are exactly the non-floor cells, listed in row-major order (so each once). */
  lemma SeatCellsMeaning(grid: Grid)
    ensures forall p :: p in SeatCells(grid) <==> IsSeat(grid, p)
    ensures RowMajor(SeatCells(grid))
  {
    SeatsAboveMeaning(grid, |grid|);
  }

  /** `seatIndexByCoord` inverts `seatPositions`. The source keys it by the text `row,col`,
      which is distinct for distinct positions; here the key is the position itself. */
  predicate IsIndexOf(seatPositions: seq<Pos>, seatIndexByCoord: map<Pos, nat>) {
    (forall p :: p in seatIndexByCoord ==> p in seatPositions) && (forall p :: p in seatPositions ==> p in seatIndexByCoord)
    && forall i :: 0 <= i < |seatPositions| ==> seatIndexByCoord[seatPositions[i]] == i
  }

  /** Numbering one more, new, position keeps the index inverse. */
  lemma IndexExtend(seatPositions: seq<Pos>, seatIndexByCoord: map<Pos, nat>, p: Pos)
    requires IsIndexOf(seatPositions, seatIndexByCoord) && p !in seatPositions
    ensures IsIndexOf(seatPositions + [p], seatIndexByCoord[p := |seatPositions|])
  {
    var sp := seatPositions + [p];
    forall i | 0 <= i < |seatPositions| ensures sp[i] == seatPositions[i] && sp[i] != p {
      assert seatPositions[i] in seatPositions;
    }
  }

  /** `buildSeatIndex`: number the non-floor cells row by row, left to right. */
  method BuildSeatIndex(grid: Grid) returns (seatPositions: seq<Pos>, seatIndexByCoord: map<Pos, nat>)
    ensures seatPositions == SeatCells(grid)
    ensures IsIndexOf(seatPositions, seatIndexByCoord)
  {
    seatPositions, seatIndexByCoord := [], map[];
    for row := 0 to |grid|
      invariant seatPositions == SeatsAbove(grid, row)
      invariant IsIndexOf(seatPositions, seatIndexByCoord)
    {
      for col := 0 to |grid[row]|
        invariant seatPositions == SeatsAbove(grid, row) + RowSeats(grid, row, col)
        invariant IsIndexOf(seatPositions, seatIndexByCoord)
      {
        if grid[row][col] != '.' {
          NumberSeat(grid, row, col, seatPositions, seatIndexByCoord);
          seatIndexByCoord := seatIndexByCoord[(row, col) := |seatPositions|];
          seatPositions := seatPositions + [(row, col)];
        }
      }
    }
  }

  /** Numbering the seat at (row, col) extends the enumeration and keeps the index inverse. */
  lemma NumberSeat(grid: Grid, row: nat, col: nat, seatPositions: seq<Pos>, seatIndexByCoord: map<Pos, nat>)
    requires row < |grid| && col < |grid[row]| && grid[row][col] != '.'
    requires seatPositions == SeatsAbove(grid, row) + RowSeats(grid, row, col)
    requires IsIndexOf(seatPositions, seatIndexByCoord)
    ensures seatPositions + [(row, col)] == SeatsAbove(grid, row) + RowSeats(grid, row, col + 1)
    ensures IsIndexOf(seatPositions + [(row, col)], seatIndexByCoord[(row, col) := |seatPositions|])
  {
    SeatsAboveMeaning(grid, row);
    RowSeatsMeaning(grid, row, col);
    IndexExtend(seatPositions, seatIndexByCoord, (row, col));
  }

  /** What `buildSeatIndex` returns for the grid. */
  predicate IsSeatIndex(grid: Grid, seatPositions: seq<Pos>, seatIndexByCoord: map<Pos, nat>) {
    seatPositions == SeatCells(grid) && IsIndexOf(seatPositions, seatIndexByCoord)
  }

  /** The seat index maps a seat to the position of that seat in the list. */
  lemma IndexOfSeat(grid: Grid, seatPositions: seq<Pos>, seatIndexByCoord: map<Pos, nat>, q: Pos)
    requires IsSeatIndex(grid, seatPositions, seatIndexByCoord) && IsSeat(grid, q)
    ensures q in seatIndexByCoord && seatIndexByCoord[q] < |seatPositions| && seatPositions[seatIndexByCoord[q]] == q
  {
    SeatCellsMeaning(grid);
    var j :| 0 <= j < |seatPositions| && seatPositions[j] == q;
  }

  // ---- part 1 neighbours: the adjacent seats ----

  /** A neighbour-list entry: a seat number, or the `undefined` that `Map.get` gives for a
      key that is not a seat. */
  type Neighbor = Option<nat>

  /** Inside the grid as the bounds checks see it: the width is that of the first row. */
  predicate InGrid(grid: Grid, r: int, c: int) {
    0 <= r < |grid| && 0 <= c < |grid[0]|
  }

  /** Every row as wide as the first. */
  predicate Rectangular(grid: Grid) {
    forall r :: 0 <= r < |grid| ==> |grid[r]| == |grid[0]|
  }

  /** q lies one step from p in direction d. */
  predicate Offset(p: Pos, q: Pos, d: nat)
    requires d < |Directions|
  {
    q.0 == p.0 + Directions[d].0 && q.1 == p.1 + Directions[d].1
  }

  /** The adjacent seat of p in direction d, if its cell passes the bounds checks and is a seat. */
  function AdjacentEntry(grid: Grid, seatIndexByCoord: map<Pos, nat>, p: Pos, d: nat): seq<Neighbor>
    requires d < |Directions|
  {
    var r, c := p.0 + Directions[d].0, p.1 + Directions[d].1;
    if InGrid(grid, r, c) && (r as nat, c as nat) in seatIndexByCoord then [Some(seatIndexByCoord[(r as nat, c as nat)])] else []
  }

  /** The adjacent seats of p in the first k directions. */
  function AdjacentList(grid: Grid, seatIndexByCoord: map<Pos, nat>, p: Pos, k: nat): seq<Neighbor>
    requires k <= |Directions|
  {
    if k == 0 then [] else AdjacentList(grid, seatIndexByCoord, p, k - 1) + AdjacentEntry(grid, seatIndexByCoord, p, k - 1)
  }

  /** `precomputeAdjacentNeighbors`: one list per seat, one entry per direction whose
      adjacent cell lies inside the grid and is a seat. */
  method PrecomputeAdjacentNeighbors(grid: Grid, seatPositions: seq<Pos>, seatIndexByCoord: map<Pos, nat>)
    returns (neighbors: seq<seq<Neighbor>>)
    ensures |neighbors| == |seatPositions|
    ensures forall i :: 0 <= i < |seatPositions| ==> neighbors[i] == AdjacentList(grid, seatIndexByCoord, seatPositions[i], 8)
  {
    neighbors := seq(|seatPositions|, _ => []);
    for i := 0 to |seatPositions|
      invariant |neighbors| == |seatPositions|
      invariant forall j :: 0 <= j < i ==> neighbors[j] == AdjacentList(grid, seatIndexByCoord, seatPositions[j], 8)
      invariant forall j :: i <= j < |seatPositions| ==> neighbors[j] == []
    {
      var (row, col) := seatPositions[i];
      var list := AdjacentOf(grid, seatIndexByCoord, row, col);
      neighbors := neighbors[i := list];
    }
  }

  /** The direction loop of `precomputeAdjacentNeighbors` for the seat at (row, col). */
  method AdjacentOf(grid: Grid, seatIndexByCoord: map<Pos, nat>, row: nat, col: nat) returns (list: seq<Neighbor>)
    ensures list == AdjacentList(grid, seatIndexByCoord, (row, col), 8)
  {
    list := [];
    for k := 0 to |Directions|
      invariant list == AdjacentList(grid, seatIndexByCoord, (row, col), k)
    {
      var (dRow, dCol) := Directions[k];
      var r, c := row + dRow, col + dCol;
      if r < 0 || r >= |grid| {
        continue;
      }
      if c < 0 || c >= |grid[0]| {
        continue;
      }
      if (r, c) in seatIndexByCoord {
        list := list + [Some(seatIndexByCoord[(r, c)])];
      }
    }
  }

  /** At most one adjacent seat per direction. */
  lemma {:induction false} AdjacentListLength(grid: Grid, seatIndexByCoord: map<Pos, nat>, p: Pos, k: nat)
    requires k <= |Directions|
    ensures |AdjacentList(grid, seatIndexByCoord, p, k)| <= k
  {
    if k > 0 {
      AdjacentListLength(grid, seatIndexByCoord, p, k - 1);
    }
  }

  /** The entry for one direction is the number of the seat one step away that way. */
  lemma AdjacentEntrySound(seatPositions: seq<Pos>, seatIndexByCoord: map<Pos, nat>, grid: Grid, i: nat, d: nat)
    requires IsIndexOf(seatPositions, seatIndexByCoord) && i < |seatPositions| && d < |Directions|
    ensures forall e :: e in AdjacentEntry(grid, seatIndexByCoord, seatPositions[i], d) ==>
              && e.Some? && e.value < |seatPositions| && Offset(seatPositions[i], seatPositions[e.value], d)
  {
    var p := seatPositions[i];
    var r, c := p.0 + Directions[d].0, p.1 + Directions[d].1;
    if InGrid(grid, r, c) && (r as nat, c as nat) in seatIndexByCoord {
      var q: Pos := (r as nat, c as nat);
      var j :| 0 <= j < |seatPositions| && seatPositions[j] == q;
      assert seatIndexByCoord[q] == j;
    }
  }

  /** The seat one step away in direction d is the entry for d when its cell passes the bounds checks. */
  lemma AdjacentEntryComplete(seatPositions: seq<Pos>, seatIndexByCoord: map<Pos, nat>, grid: Grid, i: nat, e: nat, d: nat)
    requires IsIndexOf(seatPositions, seatIndexByCoord) && i < |seatPositions| && e < |seatPositions| && d < |Directions|
    requires Offset(seatPositions[i], seatPositions[e], d) && InGrid(grid, seatPositions[e].0, seatPositions[e].1)
    ensures AdjacentEntry(grid, seatIndexByCoord, seatPositions[i], d) == [Some(e)]
  {
    assert seatPositions[e] in seatPositions;
  }

  /** A seat is never one step from itself. */
  lemma OffsetMoves(p: Pos, q: Pos, d: nat)
    requires d < |Directions| && Offset(p, q, d)
    ensures p != q
  {
  }

  /** Every entry of the adjacent list of seat i is the number of another seat, one step
      away in one of the directions. */
  lemma {:induction false} AdjacentListSound(grid: Grid, seatPositions: seq<Pos>, seatIndexByCoord: map<Pos, nat>,
                                             i: nat, k: nat)
    requires IsIndexOf(seatPositions, seatIndexByCoord) && i < |seatPositions| && k <= |Directions|
    ensures forall e :: e in AdjacentList(grid, seatIndexByCoord, seatPositions[i], k) ==>
              && e.Some? && e.value < |seatPositions| && e.value != i
              && exists d :: 0 <= d < k && Offset(seatPositions[i], seatPositions[e.value], d)
  {
    if k > 0 {
      AdjacentListSound(grid, seatPositions, seatIndexByCoord, i, k - 1);
      AdjacentEntrySound(seatPositions, seatIndexByCoord, grid, i, k - 1);
      forall e | e in AdjacentEntry(grid, seatIndexByCoord, seatPositions[i], k - 1)
        ensures e.value != i
      {
        OffsetMoves(seatPositions[i], seatPositions[e.value], k - 1);
      }
    }
  }

  /** Every seat one step from seat i whose cell passes the bounds checks is listed. */
  lemma {:induction false} AdjacentListComplete(grid: Grid, seatPositions: seq<Pos>, seatIndexByCoord: map<Pos, nat>,
                                                i: nat, k: nat)
    requires IsIndexOf(seatPositions, seatIndexByCoord) && i < |seatPositions| && k <= |Directions|
    ensures forall e, d :: 0 <= e < |seatPositions| && 0 <= d < k && Offset(seatPositions[i], seatPositions[e], d)
                           && InGrid(grid, seatPositions[e].0, seatPositions[e].1) ==>
              Some(e) in AdjacentList(grid, seatIndexByCoord, seatPositions[i], k)
  {
    if k > 0 {
      AdjacentListComplete(grid, seatPositions, seatIndexByCoord, i, k - 1);
      forall e, d | 0 <= e < |seatPositions| && 0 <= d < k && Offset(seatPositions[i], seatPositions[e], d)
                    && InGrid(grid, seatPositions[e].0, seatPositions[e].1)
        ensures Some(e) in AdjacentList(grid, seatIndexByCoord, seatPositions[i], k)
      {
        if d == k - 1 {
          AdjacentEntryComplete(seatPositions, seatIndexByCoord, grid, i, e, d);
        }
      }
    }
  }

  /** On a rectangular grid every seat passes the bounds checks, so every seat one step
      away is listed. */
  lemma SeatInGrid(grid: Grid, q: Pos)
    requires Rectangular(grid) && IsSeat(grid, q)
    ensures InGrid(grid, q.0, q.1)
  {
  }

  // ---- part 2 neighbours: the first seat visible in each direction ----

  /** The cell t steps from (r, c) in direction d. */
  function Ray(r: int, c: int, d: nat, t: nat): (int, int)
    requires d < |Directions|
  {
    if t == 0 then (r, c) else
      var (r', c') := Ray(r, c, d, t - 1);
      (r' + Directions[d].0, c' + Directions[d].1)
  }

  /** The scan stops at a cell inside the bounds whose character is not `.`; a cell past
      the end of a shorter row reads as `undefined`, which is not `.` either. */
  predicate Blocks(grid: Grid, r: int, c: int)
    requires InGrid(grid, r, c)
  {
    c >= |grid[r]| || grid[r][c] != '.'
  }

  /** A floor cell inside the bounds: the scan goes on past it. */
  predicate FloorAt(grid: Grid, rc: (int, int)) {
    InGrid(grid, rc.0, rc.1) && !Blocks(grid, rc.0, rc.1)
  }

  /** How many more cells the scan from (r, c) in direction d can visit. */
  function RayBudget(grid: Grid, r: int, c: int, d: nat): nat
    requires d < |Directions|
  {
    if !InGrid(grid, r, c) then 0
    else if Directions[d].0 > 0 then |grid| - r
    else if Directions[d].0 < 0 then r + 1
    else if Directions[d].1 > 0 then |grid[0]| - c
    else c + 1
  }

  /** The inner `while` of `precomputeVisibleNeighbors`: the first cell from (r, c) on that
      stops the scan, or none when the scan leaves the grid. */
  function FirstVisible(grid: Grid, r: int, c: int, d: nat): Option<Pos>
    requires d < |Directions|
    decreases RayBudget(grid, r, c, d)
  {
    if !InGrid(grid, r, c) then None
    else if Blocks(grid, r, c) then Some((r as nat, c as nat))
    else FirstVisible(grid, r + Directions[d].0, c + Directions[d].1, d)
  }

  lemma {:induction false} RayShift(r: int, c: int, d: nat, t: nat)
    requires d < |Directions|
    ensures Ray(r + Directions[d].0, c + Directions[d].1, d, t) == Ray(r, c, d, t + 1)
  {
    if t > 0 {
      RayShift(r, c, d, t - 1);
    }
  }

  /** The cell t steps away stops the scan, and every cell before it is floor. */
  predicate StopsAt(grid: Grid, r: int, c: int, d: nat, t: nat)
    requires d < |Directions|
  {
    var (r', c') := Ray(r, c, d, t);
    InGrid(grid, r', c') && Blocks(grid, r', c') && forall t' :: 0 <= t' < t ==> FloorAt(grid, Ray(r, c, d, t'))
  }

  /** The cell t steps away is outside the bounds, and every cell before it is floor. */
  predicate ExitsAt(grid: Grid, r: int, c: int, d: nat, t: nat)
    requires d < |Directions|
  {
    var (r', c') := Ray(r, c, d, t);
    !InGrid(grid, r', c') && forall t' :: 0 <= t' < t ==> FloorAt(grid, Ray(r, c, d, t'))
  }

  /** Floor on the first cell, and the rest of the ray seen from the next cell. */
  lemma FloorThenRest(grid: Grid, r: int, c: int, r': int, c': int, d: nat, t: nat)
    requires d < |Directions| && FloorAt(grid, (r, c)) && r' == r + Directions[d].0 && c' == c + Directions[d].1
    requires forall t' :: 0 <= t' < t ==> FloorAt(grid, Ray(r', c', d, t'))
    ensures forall t' :: 0 <= t' < t + 1 ==> FloorAt(grid, Ray(r, c, d, t'))
  {
    forall t' | 0 <= t' < t + 1 ensures FloorAt(grid, Ray(r, c, d, t')) {
      if t' > 0 {
        RayShift(r, c, d, t' - 1);
      }
    }
  }

  /** What the scan finds is the cell t steps away for a t at which the scan stops. */
  lemma {:induction false} FirstVisibleFinds(grid: Grid, r: int, c: int, d: nat) returns (t: nat)
    requires d < |Directions| && FirstVisible(grid, r, c, d).Some?
    ensures StopsAt(grid, r, c, d, t)
    ensures FirstVisible(grid, r, c, d).value.0 == Ray(r, c, d, t).0 && FirstVisible(grid, r, c, d).value.1 == Ray(r, c, d, t).1
    decreases RayBudget(grid, r, c, d)
  {
    if Blocks(grid, r, c) {
      t := 0;
    } else {
      var r', c' := r + Directions[d].0, c + Directions[d].1;
      var t0 := FirstVisibleFinds(grid, r', c', d);
      RayShift(r, c, d, t0);
      FloorThenRest(grid, r, c, r', c', d, t0);
      t := t0 + 1;
    }
  }

  /** When the scan finds nothing, it leaves the grid after floor only. */
  lemma {:induction false} FirstVisibleExits(grid: Grid, r: int, c: int, d: nat) returns (t: nat)
    requires d < |Directions| && FirstVisible(grid, r, c, d).None?
    ensures ExitsAt(grid, r, c, d, t)
    decreases RayBudget(grid, r, c, d)
  {
    if !InGrid(grid, r, c) {
      t := 0;
    } else {
      var r', c' := r + Directions[d].0, c + Directions[d].1;
      var t0 := FirstVisibleExits(grid, r', c', d);
      RayShift(r, c, d, t0);
      FloorThenRest(grid, r, c, r', c', d, t0);
      t := t0 + 1;
    }
  }

  /** The entry for direction d: the first cell the scan stops at, as its seat number. */
  function VisibleEntry(grid: Grid, seatIndexByCoord: map<Pos, nat>, p: Pos, d: nat): seq<Neighbor>
    requires d < |Directions|
  {
    match FirstVisible(grid, p.0 + Directions[d].0, p.1 + Directions[d].1, d)
    case None => []
    case Some(q) => [if q in seatIndexByCoord then Some(seatIndexByCoord[q]) else None]
  }

  /** The visible seats of p in the first k directions. */
  function VisibleList(grid: Grid, seatIndexByCoord: map<Pos, nat>, p: Pos, k: nat): seq<Neighbor>
    requires k <= |Directions|
  {
    if k == 0 then [] else VisibleList(grid, seatIndexByCoord, p, k - 1) + VisibleEntry(grid, seatIndexByCoord, p, k - 1)
  }

  /** The inner `while` of `precomputeVisibleNeighbors` for one seat and direction: walk
      outward while inside the bounds and give the first cell that is not floor, as the
      entry `neighbors[i].push` receives. */
  method ScanDirection(grid: Grid, seatIndexByCoord: map<Pos, nat>, row: nat, col: nat, k: nat)
    returns (entry: seq<Neighbor>)
    requires k < |Directions|
    ensures entry == VisibleEntry(grid, seatIndexByCoord, (row, col), k)
  {
    var (dRow, dCol) := Directions[k];
    var r, c := row + dRow, col + dCol;
    while r >= 0 && r < |grid| && c >= 0 && c < |grid[0]|
      invariant FirstVisible(grid, r, c, k) == FirstVisible(grid, row + dRow, col + dCol, k)
      decreases RayBudget(grid, r, c, k)
    {
      if c >= |grid[r]| || grid[r][c] != '.' {
        var q: Pos := (r, c);
        return [if q in seatIndexByCoord then Some(seatIndexByCoord[q]) else None];
      }
      r, c := r + dRow, c + dCol;
    }
    return [];
  }

  /** `precomputeVisibleNeighbors`: for each seat and direction, the first cell along the
      ray that is not floor. */
  method PrecomputeVisibleNeighbors(grid: Grid, seatPositions: seq<Pos>, seatIndexByCoord: map<Pos, nat>)
    returns (neighbors: seq<seq<Neighbor>>)
    ensures |neighbors| == |seatPositions|
    ensures forall i :: 0 <= i < |seatPositions| ==> neighbors[i] == VisibleList(grid, seatIndexByCoord, seatPositions[i], 8)
  {
    neighbors := seq(|seatPositions|, _ => []);
    for i := 0 to |seatPositions|
      invariant |neighbors| == |seatPositions|
      invariant forall j :: 0 <= j < i ==> neighbors[j] == VisibleList(grid, seatIndexByCoord, seatPositions[j], 8)
      invariant forall j :: i <= j < |seatPositions| ==> neighbors[j] == []
    {
      var (row, col) := seatPositions[i];
      var list := VisibleOf(grid, seatIndexByCoord, row, col);
      neighbors := neighbors[i := list];
    }
  }

  /** The direction loop of `precomputeVisibleNeighbors` for the seat at (row, col). */
  method VisibleOf(grid: Grid, seatIndexByCoord: map<Pos, nat>, row: nat, col: nat) returns (list: seq<Neighbor>)
    ensures list == VisibleList(grid, seatIndexByCoord, (row, col), 8)
  {
    list := [];
    for k := 0 to |Directions|
      invariant list == VisibleList(grid, seatIndexByCoord, (row, col), k)
    {
      var entry := ScanDirection(grid, seatIndexByCoord, row, col, k);
      list := list + entry;
    }
  }

  /** At most one visible seat per direction. */
  lemma {:induction false} VisibleListLength(grid: Grid, seatIndexByCoord: map<Pos, nat>, p: Pos, k: nat)
    requires k <= |Directions|
    ensures |VisibleList(grid, seatIndexByCoord, p, k)| <= k
  {
    if k > 0 {
      VisibleListLength(grid, seatIndexByCoord, p, k - 1);
    }
  }

  /** The cell t steps along the ray: t times the direction from the start. */
  lemma {:induction false} RayFormula(r: int, c: int, d: nat, t: nat)
    requires d < |Directions|
    ensures Ray(r, c, d, t) == (r + t * Directions[d].0, c + t * Directions[d].1)
  {
    if t > 0 {
      RayFormula(r, c, d, t - 1);
    }
  }

  /** A ray that starts one step from p never comes back to p. */
  lemma RayLeaves(p: Pos, d: nat, t: nat)
    requires d < |Directions|
    ensures Ray(p.0 + Directions[d].0, p.1 + Directions[d].1, d, t) != (p.0, p.1)
  {
    RayFormula(p.0 + Directions[d].0, p.1 + Directions[d].1, d, t);
    assert d == 0 || d == 1 || d == 2 || d == 3 || d == 4 || d == 5 || d == 6 || d == 7;
  }

  /** q is the cell the scan from p in direction d stops at, t + 1 steps from p, with floor
      on every cell between. */
  predicate SeenAt(grid: Grid, p: Pos, d: nat, t: nat, q: Pos)
    requires d < |Directions|
  {
    var (r, c) := (p.0 + Directions[d].0, p.1 + Directions[d].1);
    StopsAt(grid, r, c, d, t) && q.0 == Ray(r, c, d, t).0 && q.1 == Ray(r, c, d, t).1
  }

  /** The scan from p in direction d leaves the grid t + 1 steps from p, over floor only. */
  predicate NothingSeen(grid: Grid, p: Pos, d: nat, t: nat)
    requires d < |Directions|
  {
    ExitsAt(grid, p.0 + Directions[d].0, p.1 + Directions[d].1, d, t)
  }

  /** On a rectangular grid the entry for direction d is the number of another seat, namely
      the first non-floor cell along the ray, with floor on every cell between; there is no
      entry exactly when the ray leaves the grid over floor only. */
  lemma VisibleEntryMeaning(grid: Grid, seatPositions: seq<Pos>, seatIndexByCoord: map<Pos, nat>, i: nat, d: nat)
    requires IsSeatIndex(grid, seatPositions, seatIndexByCoord) && Rectangular(grid)
    requires i < |seatPositions| && d < |Directions|
    ensures var entry := VisibleEntry(grid, seatIndexByCoord, seatPositions[i], d);
            && |entry| <= 1
            && (forall e :: e in entry ==>
                  && e.Some? && e.value < |seatPositions| && e.value != i && IsSeat(grid, seatPositions[e.value])
                  && exists t :: SeenAt(grid, seatPositions[i], d, t, seatPositions[e.value]))
            && (entry == [] ==>
                  exists t :: NothingSeen(grid, seatPositions[i], d, t))
  {
    var p := seatPositions[i];
    var r, c := p.0 + Directions[d].0, p.1 + Directions[d].1;
    match FirstVisible(grid, r, c, d)
    case None =>
      var t := FirstVisibleExits(grid, r, c, d);
      assert NothingSeen(grid, p, d, t);
    case Some(q) =>
      var t := FirstVisibleFinds(grid, r, c, d);
      assert IsSeat(grid, q);
      IndexOfSeat(grid, seatPositions, seatIndexByCoord, q);
      assert SeenAt(grid, p, d, t, seatPositions[seatIndexByCoord[q]]);
      RayLeaves(p, d, t);
  }

  // ---- the simulation ----

  /** Entry e of a neighbour list names an occupied seat; `currentStates[undefined]` and an
      index past the end give `undefined`, which is not `#`. */
  predicate Occupies(states: seq<char>, e: Neighbor) {
    e.Some? && e.value < |states| && states[e.value] == '#'
  }

  /** The number of entries of a neighbour list that name an occupied seat. */
  function OccupiedCount(states: seq<char>, neighbors: seq<Neighbor>): nat {
    if neighbors == [] then 0
    else OccupiedCount(states, neighbors[..|neighbors| - 1]) + (if Occupies(states, neighbors[|neighbors| - 1]) then 1 else 0)
  }

  /** The update rule of one seat. */
  function NextSeat(seatState: char, occupiedNeighborCount: nat, leaveThreshold: int): char {
    if seatState == 'L' && occupiedNeighborCount == 0 then '#'
    else if seatState == '#' && occupiedNeighborCount >= leaveThreshold then 'L'
    else seatState
  }

  predicate AllSeatStates(states: seq<char>) {
    forall i :: 0 <= i < |states| ==> states[i] == 'L' || states[i] == '#'
  }

  /** One round: every seat is updated from the states of the previous round only. A seat
      keeps its position, and empty and occupied seats stay empty or occupied seats. */
  function Round(states: seq<char>, neighborList: seq<seq<Neighbor>>, leaveThreshold: int): (next: seq<char>)
    requires |neighborList| >= |states|
    ensures |next| == |states|
    ensures AllSeatStates(states) ==> AllSeatStates(next)
  {
    seq(|states|, i requires 0 <= i < |states| => NextSeat(states[i], OccupiedCount(states, neighborList[i]), leaveThreshold))
  }

  predicate IsFixedPoint(states: seq<char>, neighborList: seq<seq<Neighbor>>, leaveThreshold: int)
    requires |neighborList| >= |states|
  {
    Round(states, neighborList, leaveThreshold) == states
  }

  /** The states after k rounds. */
  function Iterate(states: seq<char>, neighborList: seq<seq<Neighbor>>, leaveThreshold: int, k: nat): (after: seq<char>)
    requires |neighborList| >= |states|
    ensures |after| == |states|
    decreases k
  {
    if k == 0 then states else Iterate(Round(states, neighborList, leaveThreshold), neighborList, leaveThreshold, k - 1)
  }

  /** The rounds of `simulateUntilStable`, at most `maxRounds` of them: the state a round
      leaves unchanged, or none if every allowed round changes something. */
  function Stabilize(states: seq<char>, neighborList: seq<seq<Neighbor>>, leaveThreshold: int, maxRounds: nat): Option<seq<char>>
    requires |neighborList| >= |states|
    decreases maxRounds
  {
    if maxRounds == 0 then None
    else
      var next := Round(states, neighborList, leaveThreshold);
      if next == states then Some(next) else Stabilize(next, neighborList, leaveThreshold, maxRounds - 1)
  }

  /** One pass of `simulateUntilStable`'s outer loop body: `nextStates` starts as a copy of
      `currentStates`, every seat's neighbours are counted in `currentStates`, and
      `didChange` records whether a rule fired. */
  method RunRound(currentStates: seq<char>, neighborList: seq<seq<Neighbor>>, leaveThreshold: int)
    returns (nextStates: seq<char>, didChange: bool)
    requires |neighborList| >= |currentStates|
    ensures nextStates == Round(currentStates, neighborList, leaveThreshold)
    ensures didChange <==> nextStates != currentStates
  {
    ghost var round := Round(currentStates, neighborList, leaveThreshold);
    nextStates := currentStates;
    didChange := false;
    for i := 0 to |currentStates|
      invariant |nextStates| == |currentStates|
      invariant forall j :: 0 <= j < i ==> nextStates[j] == round[j]
      invariant forall j :: i <= j < |currentStates| ==> nextStates[j] == currentStates[j]
      invariant didChange <==> nextStates != currentStates
    {
      var seatState := currentStates[i];
      var occupiedNeighborCount := 0;
      var neighbors := neighborList[i];
      for j := 0 to |neighbors|
        invariant occupiedNeighborCount == OccupiedCount(currentStates, neighbors[..j])
      {
        assert neighbors[..j + 1][..j] == neighbors[..j];
        var neighborIndex := neighbors[j];
        if neighborIndex.Some? && neighborIndex.value < |currentStates| && currentStates[neighborIndex.value] == '#' {
          occupiedNeighborCount := occupiedNeighborCount + 1;
        }
      }
      assert neighbors[..|neighbors|] == neighbors;
      if seatState == 'L' && occupiedNeighborCount == 0 {
        nextStates := nextStates[i := '#'];
        didChange := true;
      } else if seatState == '#' && occupiedNeighborCount >= leaveThreshold {
        nextStates := nextStates[i := 'L'];
        didChange := true;
      }
    }
  }

  /** `simulateUntilStable`, stopping after `maxRounds` rounds at the latest. */
  method SimulateUntilStable(initialSeatStates: seq<char>, neighborList: seq<seq<Neighbor>>, leaveThreshold: int, maxRounds: nat)
    returns (stable: Option<seq<char>>)
    requires |neighborList| >= |initialSeatStates|
    ensures stable == Stabilize(initialSeatStates, neighborList, leaveThreshold, maxRounds)
  {
    var currentStates := initialSeatStates;
    var rounds := 0;
    while rounds < maxRounds
      invariant rounds <= maxRounds && |currentStates| == |initialSeatStates|
      invariant Stabilize(currentStates, neighborList, leaveThreshold, maxRounds - rounds)
                == Stabilize(initialSeatStates, neighborList, leaveThreshold, maxRounds)
    {
      var nextStates, didChange := RunRound(currentStates, neighborList, leaveThreshold);
      if !didChange {
        return Some(nextStates);
      }
      currentStates := nextStates;
      rounds := rounds + 1;
    }
    return None;
  }

  /** The answer of `simulateUntilStable` is the first fixed point of the rounds: it is the
      state after k rounds, no earlier state is a fixed point, and one more round leaves it
      unchanged. */
  lemma {:induction false} StabilizeFindsFirstFixedPoint(states: seq<char>, neighborList: seq<seq<Neighbor>>,
                                                         leaveThreshold: int, maxRounds: nat) returns (k: nat)
    requires |neighborList| >= |states| && Stabilize(states, neighborList, leaveThreshold, maxRounds).Some?
    ensures var stable := Stabilize(states, neighborList, leaveThreshold, maxRounds).value;
            && k < maxRounds && stable == Iterate(states, neighborList, leaveThreshold, k)
            && IsFixedPoint(stable, neighborList, leaveThreshold)
            && forall j :: 0 <= j < k ==> !IsFixedPoint(Iterate(states, neighborList, leaveThreshold, j), neighborList, leaveThreshold)
    decreases maxRounds
  {
    var next := Round(states, neighborList, leaveThreshold);
    if next == states {
      k := 0;
    } else {
      var k' := StabilizeFindsFirstFixedPoint(next, neighborList, leaveThreshold, maxRounds - 1);
      k := k' + 1;
      forall j | 0 <= j < k
        ensures !IsFixedPoint(Iterate(states, neighborList, leaveThreshold, j), neighborList, leaveThreshold)
      {
        if j > 0 {
          assert Iterate(states, neighborList, leaveThreshold, j) == Iterate(next, neighborList, leaveThreshold, j - 1);
        }
      }
    }
  }

  /** When `maxRounds` rounds are not enough, none of the states they pass is a fixed point. */
  lemma {:induction false} StabilizeGivesUp(states: seq<char>, neighborList: seq<seq<Neighbor>>,
                                            leaveThreshold: int, maxRounds: nat)
    requires |neighborList| >= |states| && Stabilize(states, neighborList, leaveThreshold, maxRounds).None?
    ensures forall j :: 0 <= j < maxRounds ==> !IsFixedPoint(Iterate(states, neighborList, leaveThreshold, j), neighborList, leaveThreshold)
    decreases maxRounds
  {
    if maxRounds > 0 {
      var next := Round(states, neighborList, leaveThreshold);
      StabilizeGivesUp(next, neighborList, leaveThreshold, maxRounds - 1);
      forall j | 0 <= j < maxRounds
        ensures !IsFixedPoint(Iterate(states, neighborList, leaveThreshold, j), neighborList, leaveThreshold)
      {
        if j > 0 {
          assert Iterate(states, neighborList, leaveThreshold, j) == Iterate(next, neighborList, leaveThreshold, j - 1);
        }
      }
    }
  }

  /** Once a fixed point is reached, every later round keeps it. */
  lemma {:induction false} FixedPointStays(states: seq<char>, neighborList: seq<seq<Neighbor>>, leaveThreshold: int, k: nat)
    requires |neighborList| >= |states| && IsFixedPoint(states, neighborList, leaveThreshold)
    ensures Iterate(states, neighborList, leaveThreshold, k) == states
  {
    if k > 0 {
      FixedPointStays(states, neighborList, leaveThreshold, k - 1);
    }
  }

  /** Seats that start empty or occupied are empty or occupied in the stable state. */
  lemma {:induction false} StabilizeKeepsSeatStates(states: seq<char>, neighborList: seq<seq<Neighbor>>,
                                                    leaveThreshold: int, maxRounds: nat)
    requires |neighborList| >= |states| && AllSeatStates(states)
    ensures var stable := Stabilize(states, neighborList, leaveThreshold, maxRounds);
            stable.Some? ==> |stable.value| == |states| && AllSeatStates(stable.value)
    decreases maxRounds
  {
    if maxRounds > 0 && Round(states, neighborList, leaveThreshold) != states {
      StabilizeKeepsSeatStates(Round(states, neighborList, leaveThreshold), neighborList, leaveThreshold, maxRounds - 1);
    }
  }

  /** A state is a fixed point exactly when every empty seat sees an occupied one and every
      occupied seat sees fewer than `leaveThreshold` occupied ones. */
  lemma FixedPointMeaning(states: seq<char>, neighborList: seq<seq<Neighbor>>, leaveThreshold: int)
    requires |neighborList| >= |states|
    ensures IsFixedPoint(states, neighborList, leaveThreshold) <==>
            forall i :: 0 <= i < |states| ==>
              && (states[i] == 'L' ==> OccupiedCount(states, neighborList[i]) > 0)
              && (states[i] == '#' ==> OccupiedCount(states, neighborList[i]) < leaveThreshold)
  {
    var next := Round(states, neighborList, leaveThreshold);
    if next == states {
      forall i | 0 <= i < |states|
        ensures && (states[i] == 'L' ==> OccupiedCount(states, neighborList[i]) > 0)
                && (states[i] == '#' ==> OccupiedCount(states, neighborList[i]) < leaveThreshold)
      {
        assert next[i] == states[i];
      }
    }
  }

  /** Two states that agree on the seats a list names have the same count on it. */
  lemma {:induction false} OccupiedCountLocal(s1: seq<char>, s2: seq<char>, neighbors: seq<Neighbor>)
    requires |s1| == |s2|
    requires forall e :: e in neighbors && e.Some? && e.value < |s1| ==> s1[e.value] == s2[e.value]
    ensures OccupiedCount(s1, neighbors) == OccupiedCount(s2, neighbors)
  {
    if neighbors != [] {
      var last := neighbors[|neighbors| - 1];
      assert last in neighbors;
      assert forall e :: e in neighbors[..|neighbors| - 1] ==> e in neighbors;
      OccupiedCountLocal(s1, s2, neighbors[..|neighbors| - 1]);
    }
  }

  /** The update is simultaneous: the new state of seat i depends only on its own state and
      those of its listed neighbours in the previous round, so no seat sees a state written
      earlier in the same round. */
  lemma RoundIsLocal(s1: seq<char>, s2: seq<char>, neighborList: seq<seq<Neighbor>>, leaveThreshold: int, i: nat)
    requires |s1| == |s2| && |neighborList| >= |s1| && i < |s1| && s1[i] == s2[i]
    requires forall e :: e in neighborList[i] && e.Some? && e.value < |s1| ==> s1[e.value] == s2[e.value]
    ensures Round(s1, neighborList, leaveThreshold)[i] == Round(s2, neighborList, leaveThreshold)[i]
  {
    OccupiedCountLocal(s1, s2, neighborList[i]);
  }

  /** A seat has at most as many occupied neighbours as listed neighbours. */
  lemma {:induction false} OccupiedCountBound(states: seq<char>, neighbors: seq<Neighbor>)
    ensures OccupiedCount(states, neighbors) <= |neighbors|
  {
    if neighbors != [] {
      OccupiedCountBound(states, neighbors[..|neighbors| - 1]);
    }
  }

  // ---- solve ----

  /** The seat index of `buildSeatIndex`, as a value: each seat maps to its number. */
  function SeatIndexMap(seatPositions: seq<Pos>): (seatIndexByCoord: map<Pos, nat>)
    requires RowMajor(seatPositions)
    ensures IsIndexOf(seatPositions, seatIndexByCoord)
  {
    map i | 0 <= i < |seatPositions| :: seatPositions[i] := i
  }

  /** A seat list has only one index. */
  lemma IndexUnique(seatPositions: seq<Pos>, a: map<Pos, nat>, b: map<Pos, nat>)
    requires IsIndexOf(seatPositions, a) && IsIndexOf(seatPositions, b)
    ensures a == b
  {
    forall p | p in a ensures p in b && a[p] == b[p] {
      var j :| 0 <= j < |seatPositions| && seatPositions[j] == p;
    }
  }

  /** `seatPositions.map(([row, col]) => grid[row][col])`: the character of every seat. */
  function InitialStates(grid: Grid): (states: seq<char>)
    ensures |states| == |SeatCells(grid)|
    ensures forall i :: 0 <= i < |states| ==> IsSeat(grid, SeatCells(grid)[i])
                                              && states[i] == grid[SeatCells(grid)[i].0][SeatCells(grid)[i].1] != '.'
  {
    SeatCellsMeaning(grid);
    var seatPositions := SeatCells(grid);
    assert forall i :: 0 <= i < |seatPositions| ==> seatPositions[i] in seatPositions;
    seq(|seatPositions|, i requires 0 <= i < |seatPositions| => grid[seatPositions[i].0][seatPositions[i].1])
  }

  /** The adjacent-neighbour lists `precomputeAdjacentNeighbors` builds for the grid. */
  function AdjacentLists(grid: Grid): (neighborList: seq<seq<Neighbor>>)
    ensures |neighborList| == |SeatCells(grid)|
  {
    SeatCellsMeaning(grid);
    var seatPositions := SeatCells(grid);
    var seatIndexByCoord := SeatIndexMap(seatPositions);
    seq(|seatPositions|, i requires 0 <= i < |seatPositions| => AdjacentList(grid, seatIndexByCoord, seatPositions[i], 8))
  }

  /** The visible-neighbour lists `precomputeVisibleNeighbors` builds for the grid. */
  function VisibleLists(grid: Grid): (neighborList: seq<seq<Neighbor>>)
    ensures |neighborList| == |SeatCells(grid)|
  {
    SeatCellsMeaning(grid);
    var seatPositions := SeatCells(grid);
    var seatIndexByCoord := SeatIndexMap(seatPositions);
    seq(|seatPositions|, i requires 0 <= i < |seatPositions| => VisibleList(grid, seatIndexByCoord, seatPositions[i], 8))
  }

  /** A grid of floor, empty and occupied cells starts with only empty and occupied seats,
      and so ends with only those. */
  lemma InitialSeatStates(grid: Grid)
    requires forall r, c :: 0 <= r < |grid| && 0 <= c < |grid[r]| ==> grid[r][c] in {'.', 'L', '#'}
    ensures AllSeatStates(InitialStates(grid))
  {
  }

  predicate IsOccupied(seatState: char) {
    seatState == '#'
  }

  /** `solve`: the number of occupied seats once the adjacent rule (leave at 4) and the
      visible rule (leave at 5) have settled, each within `maxRounds` rounds. */
  method Solve(lines: seq<string>, maxRounds: nat) returns (r: Option<(nat, nat)>)
    ensures var initial := InitialStates(lines);
            var stable1 := Stabilize(initial, AdjacentLists(lines), 4, maxRounds);
            var stable2 := Stabilize(initial, VisibleLists(lines), 5, maxRounds);
            && (r.Some? <==> stable1.Some? && stable2.Some?)
            && (r.Some? ==> r.value.0 == CountWhere(stable1.value, IsOccupied) && r.value.1 == CountWhere(stable2.value, IsOccupied))
  {
    var grid := lines;
    var seatPositions, seatIndexByCoord := BuildSeatIndex(grid);
    SeatCellsMeaning(grid);
    IndexUnique(seatPositions, seatIndexByCoord, SeatIndexMap(seatPositions));
    var initialSeatStates := seq(|seatPositions|, i requires 0 <= i < |seatPositions| => grid[seatPositions[i].0][seatPositions[i].1]);
    assert initialSeatStates == InitialStates(grid);

    var adjacentNeighbors := PrecomputeAdjacentNeighbors(grid, seatPositions, seatIndexByCoord);
    assert adjacentNeighbors == AdjacentLists(grid);
    var stablePart1 := SimulateUntilStable(initialSeatStates, adjacentNeighbors, 4, maxRounds);

    var visibleNeighbors := PrecomputeVisibleNeighbors(grid, seatPositions, seatIndexByCoord);
    assert visibleNeighbors == VisibleLists(grid);
    var stablePart2 := SimulateUntilStable(initialSeatStates, visibleNeighbors, 5, maxRounds);

    if stablePart1.None? || stablePart2.None? {
      return None;
    }
    var part1 := CountWhere(stablePart1.value, IsOccupied);
    var part2 := CountWhere(stablePart2.value, IsOccupied);
    return Some((part1, part2));
  }
}
