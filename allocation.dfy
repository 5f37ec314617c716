/** handleStudentSelect (SeatingManagement.js lines 62-90): validate the selected
    seat for the chosen student, build the classroom's grid if it has none, write the
    student into it in place, and replace the selected classroom in the list. */
module Allocation {
  import opened SeatingTypes
  import opened Grid
  import opened PlacementRules

  /** A classroom of the list at lines 5-12. `seats` is absent until the first
      placement builds the grid (line 72); afterwards the same array is written in
      place by every later placement. */
  datatype Classroom = Classroom(id: int, name: string, seats: Option<array<Seat>>)

  /** The seat picked by a click on the grid (lines 56-60, 119-127). */
  datatype SeatChoice = SeatChoice(row: int, col: int)

  /** How handleStudentSelect ends: the early return at line 63, the alert at
      lines 65-67, or the rebuilt classroom list at lines 70-89. */
  datatype Outcome = Ignored | Rejected | Applied

  /** The classroom ids of the list are distinct, as in the list at lines 5-12. */
  predicate UniqueIds(cs: seq<Classroom>) {
    forall i, j :: 0 <= i < j < |cs| ==> cs[i].id != cs[j].id
  }

  /** Every grid that exists has the 25 seats built at line 72. */
  predicate GridsSized(cs: seq<Classroom>) {
    forall i :: 0 <= i < |cs| && cs[i].seats.Some? ==> cs[i].seats.value.Length == SeatCount
  }

  /** Position of the first classroom whose id is `id` (the test at line 71), or
      `|cs|` when there is none. */
  function Find(cs: seq<Classroom>, id: int): (k: nat)
    ensures k <= |cs|
    ensures k < |cs| ==> cs[k].id == id
    ensures forall j :: 0 <= j < k ==> cs[j].id != id
  {
    if cs == [] then 0
    else if cs[0].id == id then 0
    else 1 + Find(cs[1..], id)
  }

  /** The seat array of classroom `c`, when it has one. */
  function ArrayOf(c: Classroom): set<array<Seat>> {
    if c.seats.Some? then {c.seats.value} else {}
  }

  /** The seats of classroom `c` as they stand now; `None` before its grid is built. */
  function SeatsOf(c: Classroom): Option<seq<Seat>>
    reads ArrayOf(c)
  {
    if c.seats.Some? then Some(c.seats.value[..]) else None
  }

  /** The seat array of the classroom with id `id`, when it has one. */
  function GridOf(cs: seq<Classroom>, id: int): set<array<Seat>> {
    var k := Find(cs, id);
    if k < |cs| then ArrayOf(cs[k]) else {}
  }

  /** The seats of the classroom with id `id` as they stand now; `None` when the
      classroom has no grid yet (or there is no such classroom). */
  function Current(cs: seq<Classroom>, id: int): Option<seq<Seat>>
    reads GridOf(cs, id)
  {
    var k := Find(cs, id);
    if k < |cs| then SeatsOf(cs[k]) else None
  }

  /** The grid a placement writes into: the existing one, or a fresh one (line 72). */
  function GridOrFresh(g: Option<seq<Seat>>): seq<Seat> {
    if g.Some? then g.value else FreshGrid()
  }

  /** Replacing a classroom by one with the same id does not move any id. */
  lemma {:induction false} FindIgnoresSeats(cs: seq<Classroom>, k: nat, c: Classroom, id: int)
    requires k < |cs| && c.id == cs[k].id
    ensures Find(cs[k := c], id) == Find(cs, id)
  {
    if cs != [] && cs[0].id != id && k > 0 {
      assert cs[k := c][1..] == cs[1..][k - 1 := c];
      FindIgnoresSeats(cs[1..], k - 1, c, id);
    }
  }

  /** Lines 78-81: the seat at `row * 5 + col` takes the student, in place. */
  method PlaceStudent(seats: array<Seat>, row: int, col: int, st: Student)
    requires seats.Length == SeatCount && InBounds(row, col)
    modifies seats
    ensures seats[..] == Place(old(seats[..]), row, col, st)
  {
    var i := Index(row, col);
    seats[i] := seats[i].(student := Some(st));
  }

  /** The `map` callback of lines 71-83 for the selected classroom: its grid, built
      first if missing (line 72), takes the student at (row, col), and a classroom
      with the same id and name and that grid replaces it. An existing grid is
      written in place; a built one is new. */
  method UpdateClassroom(c: Classroom, row: int, col: int, st: Student) returns (r: Classroom)
    requires InBounds(row, col)
    requires c.seats.Some? ==> c.seats.value.Length == SeatCount
    modifies ArrayOf(c)
    ensures r.id == c.id && r.name == c.name && r.seats.Some?
    ensures r.seats.value.Length == SeatCount
    ensures c.seats.Some? ==> r.seats == c.seats
    ensures c.seats.None? ==> fresh(r.seats.value)
    ensures SeatsOf(r) == Some(Place(GridOrFresh(old(SeatsOf(c))), row, col, st))
  {
    var seats: array<Seat>;
    if c.seats.Some? {
      seats := c.seats.value;
    } else {
      seats := new Seat[SeatCount](FreshSeat);
      assert seats[..] == FreshGrid();
    }
    PlaceStudent(seats, row, col, st);
    r := c.(seats := Some(seats));
  }

  /** handleStudentSelect, validating against the grid it updates. Nothing happens
      unless a seat and a classroom are selected; a placement the rules reject
      changes nothing; otherwise the selected classroom's grid (built first if
      missing) takes the student at the selected seat, and only that classroom is
      replaced in the list. A grid that was clash free stays clash free. */
  method HandleStudentSelect(classrooms: seq<Classroom>, selectedSeat: Option<SeatChoice>,
                             selectedClassroom: Option<int>, st: Student)
    returns (updated: seq<Classroom>, outcome: Outcome)
    requires UniqueIds(classrooms) && GridsSized(classrooms)
    requires selectedSeat.Some? ==> InBounds(selectedSeat.value.row, selectedSeat.value.col)
    modifies if selectedClassroom.Some? then GridOf(classrooms, selectedClassroom.value) else {}
    ensures outcome == Ignored <==> selectedSeat.None? || selectedClassroom.None?
    ensures outcome == Rejected <==>
              selectedSeat.Some? && selectedClassroom.Some? &&
              !IsValidPlacement(st, selectedSeat.value.row, selectedSeat.value.col,
                                old(Current(classrooms, selectedClassroom.value)))
    ensures outcome != Applied ==> updated == classrooms
    ensures outcome != Applied && selectedClassroom.Some? ==>
              Current(classrooms, selectedClassroom.value) == old(Current(classrooms, selectedClassroom.value))
    ensures outcome == Applied ==>
              var id, row, col := selectedClassroom.value, selectedSeat.value.row, selectedSeat.value.col;
              var k := Find(classrooms, id);
              var before := old(Current(classrooms, id));
              |updated| == |classrooms| && UniqueIds(updated) && GridsSized(updated) &&
              (forall j :: 0 <= j < |classrooms| && j != k ==> updated[j] == classrooms[j]) &&
              (k < |classrooms| ==>
                 updated[k].id == id && updated[k].name == classrooms[k].name &&
                 updated[k].seats.Some? &&
                 (classrooms[k].seats.Some? ==> updated[k].seats == classrooms[k].seats) &&
                 (classrooms[k].seats.None? ==> fresh(updated[k].seats.value)) &&
                 Current(updated, id) == Some(Place(GridOrFresh(before), row, col, st)) &&
                 ((before.None? || (WellFormed(before.value) && ClashFree(before.value))) ==>
                    WellFormed(Current(updated, id).value) && ClashFree(Current(updated, id).value)))
  {
    if selectedSeat.None? || selectedClassroom.None? {
      return classrooms, Ignored;
    }
    var id, row, col := selectedClassroom.value, selectedSeat.value.row, selectedSeat.value.col;
    if !IsValidPlacement(st, row, col, Current(classrooms, id)) {
      return classrooms, Rejected;
    }
    ghost var before := Current(classrooms, id);
    var k := Find(classrooms, id);
    updated := classrooms;
    if k < |classrooms| {
      var c := UpdateClassroom(classrooms[k], row, col, st);
      updated := classrooms[k := c];
      FindIgnoresSeats(classrooms, k, c, id);
      if before.None? || (WellFormed(before.value) && ClashFree(before.value)) {
        if before.None? {
          EmptyGridAcceptsAll(st, row, col, FreshGrid());
        }
        PlacementPreservesClashFreedom(GridOrFresh(before), row, col, st);
      }
    }
    outcome := Applied;
  }

  // ---- The stale snapshot at line 65 ----

  /** handleStudentSelect as written, for one classroom: line 65 checks the
      placement against `snapshot`, the seats of the classroom object captured when
      its button was clicked (line 106), while lines 72-81 write into `live`, the
      seats of that classroom in the current list. setClassrooms (line 88) replaces
      the list's object but not the captured one, so after the first placement into
      a classroom without a grid the snapshot keeps having no seats. */
  function PlaceAgainstSnapshot(snapshot: Option<seq<Seat>>, live: Option<seq<Seat>>,
                                row: int, col: int, st: Student): (r: Option<seq<Seat>>)
    requires InBounds(row, col)
    requires live.Some? ==> |live.value| == SeatCount
    ensures r.Some? <==> IsValidPlacement(st, row, col, snapshot)
    ensures r.Some? ==> r.value == Place(GridOrFresh(live), row, col, st)
  {
    if IsValidPlacement(st, row, col, snapshot) then Some(Place(GridOrFresh(live), row, col, st))
    else None
  }

  /** While the captured classroom has no seats, every in-grid placement is
      accepted and written into the live grid, whatever that grid holds; if the
      live grid already has a seat other than the target in a class or house
      conflict with the student, the accepted grid is not clash free. */
  lemma AbsentSnapshotAcceptsAll(live: Option<seq<Seat>>, row: int, col: int, st: Student)
    requires InBounds(row, col)
    requires live.Some? ==> |live.value| == SeatCount
    ensures PlaceAgainstSnapshot(None, live, row, col, st) == Some(Place(GridOrFresh(live), row, col, st))
    ensures live.Some? && WellFormed(live.value) &&
            (exists i :: 0 <= i < SeatCount && i != Index(row, col) &&
               (ClassConflict(st, row, col, live.value[i]) || HouseConflict(st, row, col, live.value[i])))
            ==> !ClashFree(PlaceAgainstSnapshot(None, live, row, col, st).value)
  {
    var k := Index(row, col);
    if live.Some? && WellFormed(live.value) &&
       exists i :: 0 <= i < SeatCount && i != k &&
         (ClassConflict(st, row, col, live.value[i]) || HouseConflict(st, row, col, live.value[i]))
    {
      var g := live.value;
      var i :| 0 <= i < SeatCount && i != k &&
               (ClassConflict(st, row, col, g[i]) || HouseConflict(st, row, col, g[i]));
      var p := Place(g, row, col, st);
      assert p[k] == Seat(row, col, Some(st));
      assert p[i] == g[i];
      var lo, hi := if i < k then i else k, if i < k then k else i;
      if ClassConflict(st, row, col, g[i]) {
        assert !NoClassClash(p) by {
          assert p[lo].student.value.cls == p[hi].student.value.cls;
        }
      } else {
        assert !NoHouseClash(p) by {
          assert Adjacent(p[lo].row, p[lo].column, p[hi].row, p[hi].column);
          assert p[lo].student.value.house == p[hi].student.value.house;
        }
      }
    }
  }

  /** With the roster of lines 20-21: John (5A) is seated at (0,0) of a classroom
      that had no grid; the snapshot still has no seats, so Jane (also 5A) is then
      accepted at (0,3), in John's row, and the grid holds a same-class clash. The
      live grid would have rejected her. */
  lemma StaleSnapshotAdmitsClash()
    ensures var john := Student(1, "John Doe", "5A", "Blue", false);
            var jane := Student(2, "Jane Smith", "5A", "Red", false);
            var first := PlaceAgainstSnapshot(None, None, 0, 0, john);
            var second := PlaceAgainstSnapshot(None, first, 0, 3, jane);
            first.Some? && second.Some? && !ClashFree(second.value) &&
            !IsValidPlacement(jane, 0, 3, first)
  {
    var john := Student(1, "John Doe", "5A", "Blue", false);
    var jane := Student(2, "Jane Smith", "5A", "Red", false);
    var first := Place(FreshGrid(), 0, 0, john);
    var second := Place(first, 0, 3, jane);
    assert second[0] == Seat(0, 0, Some(john));
    assert second[3] == Seat(0, 3, Some(jane));
    assert !NoClassClash(second);
    ValidPlacementIff(jane, 0, 3, first);
    assert ClassConflict(jane, 0, 3, first[0]);
  }
}
