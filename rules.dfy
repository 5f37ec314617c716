/** isValidPlacement (SeatingManagement.js lines 25-54): the two hard rules a
    placement must pass, and the grid invariant they protect. */
module PlacementRules {
  import opened SeatingTypes
  import opened Grid

  // ---- Same-class rule (lines 27-31) ----

  /** Seat `s` holds a student of `st`'s class in row `row` or in column `col`. */
  predicate ClassConflict(st: Student, row: int, col: int, s: Seat) {
    s.student.Some? && s.student.value.cls == st.cls && (s.row == row || s.column == col)
  }

  function ClassConflictWith(st: Student, row: int, col: int): Seat -> bool {
    s => ClassConflict(st, row, col, s)
  }

  /** `sameClassInRowCol`: the scan of the classroom's seats at lines 27-31. */
  function SameClassInRowCol(st: Student, row: int, col: int, seats: seq<Seat>): bool {
    Any(seats, ClassConflictWith(st, row, col))
  }

  /** The same-class rule fires exactly when some occupied seat in the candidate's
      row or column (the target seat included) holds a student of its class. */
  lemma SameClassInRowColIff(st: Student, row: int, col: int, seats: seq<Seat>)
    ensures SameClassInRowCol(st, row, col, seats) <==>
              exists i :: 0 <= i < |seats| && ClassConflict(st, row, col, seats[i])
  {
    AnyIff(seats, ClassConflictWith(st, row, col));
  }

  // ---- Same-house rule (lines 33-51) ----

  /** The eight neighbour offsets of lines 34-38, in the source's order. */
  const Offsets: seq<(int, int)> :=
    [(-1, -1), (-1, 0), (-1, 1), (0, -1), (0, 1), (1, -1), (1, 0), (1, 1)]

  /** Moore neighbours: distinct cells at most one step apart in each direction. */
  predicate Adjacent(r1: int, c1: int, r2: int, c2: int) {
    (r1, c1) != (r2, c2) && -1 <= r1 - r2 <= 1 && -1 <= c1 - c2 <= 1
  }

  /** Seat `s` is cell (row, col) and holds a student of house `house`
      (lines 47-49; an empty seat's `student?.house` is undefined and matches no house). */
  predicate HouseAt(row: int, col: int, house: string, s: Seat) {
    s.row == row && s.column == col && s.student.Some? && s.student.value.house == house
  }

  function HouseAtCell(row: int, col: int, house: string): Seat -> bool {
    s => HouseAt(row, col, house, s)
  }

  /** The callback of lines 40-51 for one offset: the neighbour cell must lie in the
      grid (line 44) and some seat there must hold the candidate's house (46-50). */
  predicate NeighbourClash(st: Student, row: int, col: int, seats: seq<Seat>, o: (int, int)) {
    InBounds(row + o.0, col + o.1) && Any(seats, HouseAtCell(row + o.0, col + o.1, st.house))
  }

  function NeighbourClashWith(st: Student, row: int, col: int, seats: seq<Seat>): ((int, int)) -> bool {
    o => NeighbourClash(st, row, col, seats, o)
  }

  /** `sameHouseAdjacent`: the scan of the offsets at lines 40-51. */
  function SameHouseAdjacent(st: Student, row: int, col: int, seats: seq<Seat>): bool {
    Any(Offsets, NeighbourClashWith(st, row, col, seats))
  }

  /** Seat `s` lies in the grid, is a Moore neighbour of (row, col), and holds a
      student of `st`'s house. */
  predicate HouseConflict(st: Student, row: int, col: int, s: Seat) {
    s.student.Some? && s.student.value.house == st.house &&
    InBounds(s.row, s.column) && Adjacent(s.row, s.column, row, col)
  }

  /** The offset list is exactly the Moore neighbourhood. */
  lemma OffsetsAreMooreNeighbourhood(dr: int, dc: int)
    ensures (dr, dc) in Offsets <==> Adjacent(dr, dc, 0, 0)
  {
  }

  /** A clash found through the offset scan is a seat that is a Moore neighbour. */
  lemma NeighbourClashIsHouseConflict(st: Student, row: int, col: int, seats: seq<Seat>, o: (int, int))
    requires o in Offsets && NeighbourClash(st, row, col, seats, o)
    ensures exists i :: 0 <= i < |seats| && HouseConflict(st, row, col, seats[i])
  {
    AnyIff(seats, HouseAtCell(row + o.0, col + o.1, st.house));
    var i :| 0 <= i < |seats| && HouseAt(row + o.0, col + o.1, st.house, seats[i]);
    OffsetsAreMooreNeighbourhood(o.0, o.1);
    assert HouseConflict(st, row, col, seats[i]);
  }

  /** A neighbour seat of the candidate's house is found by the offset scan. */
  lemma HouseConflictIsNeighbourClash(st: Student, row: int, col: int, seats: seq<Seat>, i: int)
    requires 0 <= i < |seats| && HouseConflict(st, row, col, seats[i])
    ensures var o := (seats[i].row - row, seats[i].column - col);
            o in Offsets && NeighbourClash(st, row, col, seats, o)
  {
    var o := (seats[i].row - row, seats[i].column - col);
    OffsetsAreMooreNeighbourhood(o.0, o.1);
    AnyIff(seats, HouseAtCell(row + o.0, col + o.1, st.house));
    assert HouseAt(row + o.0, col + o.1, st.house, seats[i]);
  }

  /** The same-house rule fires exactly when some in-grid Moore neighbour of
      (row, col) holds a student of the candidate's house; cells outside the grid
      never count. */
  lemma SameHouseAdjacentIff(st: Student, row: int, col: int, seats: seq<Seat>)
    ensures SameHouseAdjacent(st, row, col, seats) <==>
              exists i :: 0 <= i < |seats| && HouseConflict(st, row, col, seats[i])
  {
    var clash := NeighbourClashWith(st, row, col, seats);
    AnyIff(Offsets, clash);
    if SameHouseAdjacent(st, row, col, seats) {
      var k :| 0 <= k < |Offsets| && clash(Offsets[k]);
      NeighbourClashIsHouseConflict(st, row, col, seats, Offsets[k]);
    }
    if exists i :: 0 <= i < |seats| && HouseConflict(st, row, col, seats[i]) {
      var i :| 0 <= i < |seats| && HouseConflict(st, row, col, seats[i]);
      HouseConflictIsNeighbourClash(st, row, col, seats, i);
      var o := (seats[i].row - row, seats[i].column - col);
      var k :| 0 <= k < |Offsets| && Offsets[k] == o;
      assert clash(Offsets[k]);
    }
  }

  // ---- The validator (line 53) ----

  /** `isValidPlacement(student, row, col, classroom)` with `classroom.seats` as
      `seats`. When the classroom has no seats yet both `?.some` scans yield
      `undefined`, so neither rule fires. */
  function IsValidPlacement(st: Student, row: int, col: int, seats: Option<seq<Seat>>): bool {
    match seats
    case None => true
    case Some(g) => !SameClassInRowCol(st, row, col, g) && !SameHouseAdjacent(st, row, col, g)
  }

  /** The validator is exactly the conjunction of the two rules, each stated over
      the whole seat list. */
  lemma ValidPlacementIff(st: Student, row: int, col: int, g: seq<Seat>)
    ensures IsValidPlacement(st, row, col, Some(g)) <==>
              (forall i :: 0 <= i < |g| ==> !ClassConflict(st, row, col, g[i])) &&
              (forall i :: 0 <= i < |g| ==> !HouseConflict(st, row, col, g[i]))
  {
    SameClassInRowColIff(st, row, col, g);
    SameHouseAdjacentIff(st, row, col, g);
  }

  /** A classroom without seats, or whose seats are all empty, accepts every
      placement; an absent seat list behaves as a freshly built grid. */
  lemma EmptyGridAcceptsAll(st: Student, row: int, col: int, g: seq<Seat>)
    requires forall i :: 0 <= i < |g| ==> !Occupied(g[i])
    ensures IsValidPlacement(st, row, col, None)
    ensures IsValidPlacement(st, row, col, Some(g))
    ensures IsValidPlacement(st, row, col, Some(FreshGrid()))
  {
    ValidPlacementIff(st, row, col, g);
    ValidPlacementIff(st, row, col, FreshGrid());
  }

  // ---- The invariant the rules protect ----

  /** No two occupied seats in one row or one column hold students of one class. */
  predicate NoClassClash(g: seq<Seat>) {
    forall i, j ::
      (0 <= i < j < |g| && Occupied(g[i]) && Occupied(g[j]) &&
       (g[i].row == g[j].row || g[i].column == g[j].column))
      ==> g[i].student.value.cls != g[j].student.value.cls
  }

  /** No two Moore-adjacent occupied seats hold students of one house. */
  predicate NoHouseClash(g: seq<Seat>) {
    forall i, j ::
      (0 <= i < j < |g| && Occupied(g[i]) && Occupied(g[j]) &&
       Adjacent(g[i].row, g[i].column, g[j].row, g[j].column))
      ==> g[i].student.value.house != g[j].student.value.house
  }

  /** A seating plan that respects both rules everywhere. */
  predicate ClashFree(g: seq<Seat>) {
    NoClassClash(g) && NoHouseClash(g)
  }

  /** No seat of `g` is in a same-class conflict with `st` at (row, col), so the
      placement adds no class clash. */
  lemma PlacementKeepsNoClassClash(g: seq<Seat>, row: int, col: int, st: Student)
    requires WellFormed(g) && NoClassClash(g) && InBounds(row, col)
    requires forall i :: 0 <= i < |g| ==> !ClassConflict(st, row, col, g[i])
    ensures NoClassClash(Place(g, row, col, st))
  {
    var p := Place(g, row, col, st);
    var k := Index(row, col);
    assert p[k] == Seat(row, col, Some(st));
    forall i, j | 0 <= i < j < |p| && Occupied(p[i]) && Occupied(p[j]) &&
        (p[i].row == p[j].row || p[i].column == p[j].column)
      ensures p[i].student.value.cls != p[j].student.value.cls
    {
      if i == k {
        assert !ClassConflict(st, row, col, g[j]);
      } else if j == k {
        assert !ClassConflict(st, row, col, g[i]);
      }
    }
  }

  /** No seat of `g` is in a same-house conflict with `st` at (row, col), so the
      placement adds no house clash. */
  lemma PlacementKeepsNoHouseClash(g: seq<Seat>, row: int, col: int, st: Student)
    requires WellFormed(g) && NoHouseClash(g) && InBounds(row, col)
    requires forall i :: 0 <= i < |g| ==> !HouseConflict(st, row, col, g[i])
    ensures NoHouseClash(Place(g, row, col, st))
  {
    var p := Place(g, row, col, st);
    var k := Index(row, col);
    assert p[k] == Seat(row, col, Some(st));
    forall i, j | 0 <= i < j < |p| && Occupied(p[i]) && Occupied(p[j]) &&
        Adjacent(p[i].row, p[i].column, p[j].row, p[j].column)
      ensures p[i].student.value.house != p[j].student.value.house
    {
      if i == k {
        assert !HouseConflict(st, row, col, g[j]);
      } else if j == k {
        assert !HouseConflict(st, row, col, g[i]);
      }
    }
  }

  /** A placement that passes the validator on the very grid it is written into
      keeps that grid well formed and clash free, whether or not the target seat
      was occupied before. */
  lemma {:induction false} PlacementPreservesClashFreedom(g: seq<Seat>, row: int, col: int, st: Student)
    requires WellFormed(g) && ClashFree(g) && InBounds(row, col)
    requires IsValidPlacement(st, row, col, Some(g))
    ensures WellFormed(Place(g, row, col, st))
    ensures ClashFree(Place(g, row, col, st))
  {
    PlaceReadBack(g, row, col, st);
    ValidPlacementIff(st, row, col, g);
    PlacementKeepsNoClassClash(g, row, col, st);
    PlacementKeepsNoHouseClash(g, row, col, st);
  }
}
